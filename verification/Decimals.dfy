/** Decimal numbers in encoded strings: external/argon2/encoding.c:214-251 and 473-481, and what "%lu" prints. */
module Decimals {
  import opened Words
  import opened Base64

  const ULONG_MAX: u64 := 0xFFFF_FFFF_FFFF_FFFF

  predicate IsDigit(c: Char) {
    48 <= c <= 57
  }

  predicate AllDigits(s: seq<Char>) {
    forall i :: 0 <= i < |s| ==> IsDigit(s[i])
  }

  predicate StartsWithDigit(s: seq<Char>) {
    s != [] && IsDigit(s[0])
  }

  function DecimalValue(s: seq<Char>): nat
    requires AllDigits(s)
  {
    if s == [] then 0 else 10 * DecimalValue(s[..|s| - 1]) + (s[|s| - 1] - 48)
  }

  /** The decimal digits of a number, without leading zeros. */
  function Decimal(n: nat): (s: seq<Char>)
    ensures s != []
  {
    if n < 10 then [48 + n] else Decimal(n / 10) + [48 + n % 10]
  }

  /** The form decode_decimal insists on: digits, and a zero in front only if it is alone. */
  predicate Minimal(s: seq<Char>) {
    AllDigits(s) && s != [] && (s[0] == 48 ==> |s| == 1)
  }

  lemma {:induction false} DecimalIsMinimal(n: nat)
    ensures Minimal(Decimal(n)) && DecimalValue(Decimal(n)) == n
    ensures n != 0 ==> Decimal(n)[0] != 48
  {
    if n >= 10 {
      DecimalIsMinimal(n / 10);
    }
  }

  lemma {:induction false} MinimalIsDecimal(s: seq<Char>)
    requires Minimal(s)
    ensures Decimal(DecimalValue(s)) == s
    ensures s[0] != 48 ==> DecimalValue(s) > 0
  {
    var front, last := s[..|s| - 1], s[|s| - 1] - 48;
    if front == [] {
      assert s == [48 + last];
    } else {
      MinimalIsDecimal(front);
      assert DecimalValue(s) == 10 * DecimalValue(front) + last;
      assert s == front + [48 + last];
    }
  }

  lemma {:induction false} DigitsOnlyAdd(s: seq<Char>, k: nat)
    requires AllDigits(s) && k <= |s|
    ensures DecimalValue(s[..k]) <= DecimalValue(s)
    decreases |s|
  {
    if k == |s| {
      assert s[..k] == s;
    } else {
      DigitsOnlyAdd(s[..|s| - 1], k);
      assert s[..|s| - 1][..k] == s[..k];
    }
  }

  /** numlen: how many digits a number has. */
  method NumLen(num: u32) returns (len: nat)
    ensures len == |Decimal(num)|
  {
    len := 1;
    var n := num;
    while n >= 10
      invariant 0 <= n && len + |Decimal(n)| == 1 + |Decimal(num)|
    {
      len := len + 1;
      n := n / 10;
    }
  }

  // ----- The longest run of digits -----

  /** Two ways to cut the same text into a run and a rest that does not continue it are the same way. */
  lemma {:induction false} PeelRun(p: Char -> bool, a: seq<Char>, s: seq<Char>, b: seq<Char>, t: seq<Char>)
    requires a + s == b + t
    requires (forall i :: 0 <= i < |a| ==> p(a[i])) && (forall i :: 0 <= i < |b| ==> p(b[i]))
    requires (s == [] || !p(s[0])) && (t == [] || !p(t[0]))
    ensures a == b && s == t
  {
    NotLonger(p, a, s, b, t);
    NotLonger(p, b, t, a, s);
    assert a == (a + s)[..|a|] && b == (b + t)[..|b|];
    assert s == (a + s)[|a|..] && t == (b + t)[|b|..];
  }

  lemma NotLonger(p: Char -> bool, a: seq<Char>, s: seq<Char>, b: seq<Char>, t: seq<Char>)
    requires a + s == b + t
    requires (forall i :: 0 <= i < |b| ==> p(b[i])) && (s == [] || !p(s[0]))
    ensures |b| <= |a|
  {
    var whole := a + s;
    assert |whole| == |b| + |t|;
    assert forall i :: 0 <= i < |b| ==> whole[i] == b[i];
    assert |a| < |whole| ==> whole[|a|] == s[0];
  }

  lemma PeelDecimal(m: nat, s: seq<Char>, n: nat, t: seq<Char>)
    requires Decimal(m) + s == Decimal(n) + t && !StartsWithDigit(s) && !StartsWithDigit(t)
    ensures m == n && s == t
  {
    DecimalIsMinimal(m);
    DecimalIsMinimal(n);
    PeelRun(IsDigit, Decimal(m), s, Decimal(n), t);
  }

  datatype Parsed = Failed | Parsed(value: u64, next: nat)

  /**
   decode_decimal from a place on: the number whose digits stand there in minimal form, if there is one and it fits an
   unsigned long of 64 bits.
   */
  method DecodeDecimal(str: seq<Char>, from: nat) returns (r: Parsed)
    requires from <= |str|
    ensures r.Parsed? ==> from < r.next <= |str| && !StartsWithDigit(str[r.next..])
    ensures r.Parsed? ==> str[from..] == Decimal(r.value) + str[r.next..]
    ensures r.Failed? ==>
              forall n: nat, rest | n <= 0xFFFF_FFFF_FFFF_FFFF && !StartsWithDigit(rest) ::
                str[from..] != Decimal(n) + rest
  {
    var acc: u64, next := 0, from;
    while next < |str| && IsDigit(str[next])
      invariant from <= next <= |str| && AllDigits(str[from..next]) && acc == DecimalValue(str[from..next])
    {
      var c := str[next] - 48;
      OneMoreDigit(str, from, next);
      if acc > ULONG_MAX / 10 || c > ULONG_MAX - 10 * acc {
        Overflows(acc, c);
        TooLarge(str, from, next + 1);
        return Failed;
      }
      acc := 10 * acc + c;
      next := next + 1;
    }
    ghost var digits, tail := str[from..next], str[next..];
    assert str[from..] == digits + tail;
    if next == from || (str[from] == 48 && next != from + 1) {
      NotMinimal(digits, tail);
      return Failed;
    }
    MinimalIsDecimal(digits);
    return Parsed(acc, next);
  }

  lemma OneMoreDigit(str: seq<Char>, from: nat, next: nat)
    requires from <= next < |str| && AllDigits(str[from..next]) && IsDigit(str[next])
    ensures AllDigits(str[from..next + 1])
    ensures DecimalValue(str[from..next + 1]) == 10 * DecimalValue(str[from..next]) + (str[next] - 48)
  {
    var digits := str[from..next + 1];
    assert digits[..|digits| - 1] == str[from..next];
  }

  /** The two tests that keep the accumulator in range. */
  lemma Overflows(acc: u64, c: nat)
    requires acc > ULONG_MAX / 10 || c > ULONG_MAX - 10 * acc
    ensures 10 * acc + c > ULONG_MAX
  {
  }

  lemma NotMinimal(digits: seq<Char>, tail: seq<Char>)
    requires AllDigits(digits) && !Minimal(digits) && !StartsWithDigit(tail)
    ensures forall n: nat, rest | !StartsWithDigit(rest) :: digits + tail != Decimal(n) + rest
  {
    forall n: nat, rest | !StartsWithDigit(rest)
      ensures digits + tail != Decimal(n) + rest
    {
      if digits + tail == Decimal(n) + rest {
        DecimalIsMinimal(n);
        PeelRun(IsDigit, digits, tail, Decimal(n), rest);
      }
    }
  }

  lemma PrefixOfDecimal(digits: seq<Char>, tail: seq<Char>, n: nat, rest: seq<Char>)
    requires AllDigits(digits) && digits + tail == Decimal(n) + rest && !StartsWithDigit(rest)
    ensures DecimalValue(digits) <= n
  {
    DecimalIsMinimal(n);
    NotLonger(IsDigit, Decimal(n), rest, digits, tail);
    assert digits == (digits + tail)[..|digits|] == Decimal(n)[..|digits|];
    DigitsOnlyAdd(Decimal(n), |digits|);
  }

  lemma TooLarge(str: seq<Char>, from: nat, next: nat)
    requires from <= next <= |str| && AllDigits(str[from..next]) && DecimalValue(str[from..next]) > ULONG_MAX
    ensures forall n: nat, rest | n <= ULONG_MAX && !StartsWithDigit(rest) :: str[from..] != Decimal(n) + rest
  {
    assert str[from..] == str[from..next] + str[next..];
    forall n: nat, rest | n <= ULONG_MAX && !StartsWithDigit(rest)
      ensures str[from..] != Decimal(n) + rest
    {
      if str[from..] == Decimal(n) + rest {
        PrefixOfDecimal(str[from..next], str[next..], n, rest);
      }
    }
  }
}
