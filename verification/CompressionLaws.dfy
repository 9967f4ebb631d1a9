/**
 The compression function of section 3.5 of RFC 9106 (external/argon2/ref.c:39-85): R is the XOR of the two blocks, Q
 its eight rows put through the permutation, Z the eight columns of Q put through it, and the result R XOR Z. The
 rounds are done one after the other in place; that they do not disturb each other is proved here.
 */
module CompressionLaws {
  import opened Layout
  import opened BlaMka
  import opened FillBlock

  /** The eight steps of G, section 3.6 of RFC 9106, with the BlaMka multiplication in place of the addition. */
  lemma GOfRfc<T>(o: Ops<T>, a: seq<T>, b: seq<T>, c: seq<T>, d: seq<T>)
    requires |a| == |b| == |c| == |d| == 3
    requires a[1] == o.f(a[0], b[0]) && d[1] == o.rotr(o.xor(d[0], a[1]), 32)
    requires c[1] == o.f(c[0], d[1]) && b[1] == o.rotr(o.xor(b[0], c[1]), 24)
    requires a[2] == o.f(a[1], b[1]) && d[2] == o.rotr(o.xor(d[1], a[2]), 16)
    requires c[2] == o.f(c[1], d[2]) && b[2] == o.rotr(o.xor(b[1], c[2]), 63)
    ensures G(o, Quad(a[0], b[0], c[0], d[0])) == Quad(a[2], b[2], c[2], d[2])
  {
  }

  /** The permutation: G on the four columns of a matrix of four by four words, then G on its four diagonals. */
  lemma RoundOfRfc<T>(o: Ops<T>, w: Words16<T>) returns (x: Words16<T>)
    ensures Quad(x.v0, x.v4, x.v8, x.v12) == G(o, Quad(w.v0, w.v4, w.v8, w.v12))
    ensures Quad(x.v1, x.v5, x.v9, x.v13) == G(o, Quad(w.v1, w.v5, w.v9, w.v13))
    ensures Quad(x.v2, x.v6, x.v10, x.v14) == G(o, Quad(w.v2, w.v6, w.v10, w.v14))
    ensures Quad(x.v3, x.v7, x.v11, x.v15) == G(o, Quad(w.v3, w.v7, w.v11, w.v15))
    ensures var r := Round(o, w);
            && Quad(r.v0, r.v5, r.v10, r.v15) == G(o, Quad(x.v0, x.v5, x.v10, x.v15))
            && Quad(r.v1, r.v6, r.v11, r.v12) == G(o, Quad(x.v1, x.v6, x.v11, x.v12))
            && Quad(r.v2, r.v7, r.v8, r.v13) == G(o, Quad(x.v2, x.v7, x.v8, x.v13))
            && Quad(r.v3, r.v4, r.v9, r.v14) == G(o, Quad(x.v3, x.v4, x.v9, x.v14))
  {
    var q0, q1 := G(o, Quad(w.v0, w.v4, w.v8, w.v12)), G(o, Quad(w.v1, w.v5, w.v9, w.v13));
    var q2, q3 := G(o, Quad(w.v2, w.v6, w.v10, w.v14)), G(o, Quad(w.v3, w.v7, w.v11, w.v15));
    x := Words16(q0.a, q1.a, q2.a, q3.a, q0.b, q1.b, q2.b, q3.b, q0.c, q1.c, q2.c, q3.c, q0.d, q1.d, q2.d, q3.d);
  }

  ghost predicate Distinct(p: seq<nat>) {
    forall k, l :: 0 <= k < l < |p| ==> p[k] != p[l]
  }

  lemma {:induction false} ScatterAt<T>(v: seq<T>, p: seq<nat>, x: seq<T>, k: nat)
    requires |p| == |x| && InRange(p, |v|) && Distinct(p) && k < |p|
    ensures Scatter(v, p, x)[p[k]] == x[k]
  {
    var n := |p| - 1;
    if k < n {
      ScatterAt(v, p[..n], x[..n], k);
    }
  }

  lemma {:induction false} ScatterElsewhere<T>(v: seq<T>, p: seq<nat>, x: seq<T>, j: nat)
    requires |p| == |x| && InRange(p, |v|) && j < |v| && j !in p
    ensures Scatter(v, p, x)[j] == v[j]
  {
    if p != [] {
      ScatterElsewhere(v, p[..|p| - 1], x[..|x| - 1], j);
    }
  }

  /** A round writes its own sixteen words ... */
  lemma RoundWrites<T>(o: Ops<T>, v: seq<T>, p: seq<nat>)
    requires |p| == 16 && InRange(p, |v|) && Distinct(p)
    ensures Gather(RoundAt(o, v, p), p) == Round(o, Gather(v, p))
  {
    var w := Round(o, Gather(v, p));
    forall k | 0 <= k < 16
      ensures RoundAt(o, v, p)[p[k]] == Listed(w)[k]
    {
      ScatterAt(v, p, Listed(w), k);
    }
    Listing(RoundAt(o, v, p), p, w);
  }

  lemma Listing<T>(v: seq<T>, p: seq<nat>, w: Words16<T>)
    requires |p| == 16 && InRange(p, |v|) && forall k :: 0 <= k < 16 ==> v[p[k]] == Listed(w)[k]
    ensures Gather(v, p) == w
  {
    var x := Listed(w);
    assert v[p[0]] == x[0] && v[p[1]] == x[1] && v[p[2]] == x[2] && v[p[3]] == x[3];
    assert v[p[4]] == x[4] && v[p[5]] == x[5] && v[p[6]] == x[6] && v[p[7]] == x[7];
    assert v[p[8]] == x[8] && v[p[9]] == x[9] && v[p[10]] == x[10] && v[p[11]] == x[11];
    assert v[p[12]] == x[12] && v[p[13]] == x[13] && v[p[14]] == x[14] && v[p[15]] == x[15];
  }

  ghost predicate Apart(p: seq<nat>, q: seq<nat>) {
    forall k, l :: 0 <= k < |p| && 0 <= l < |q| ==> p[k] != q[l]
  }

  /** ... and leaves those of the other rounds alone. */
  lemma RoundLeaves<T>(o: Ops<T>, v: seq<T>, p: seq<nat>, q: seq<nat>)
    requires |p| == 16 && InRange(p, |v|) && |q| == 16 && InRange(q, |v|) && Apart(p, q)
    ensures Gather(RoundAt(o, v, p), q) == Gather(v, q)
  {
    forall k | 0 <= k < 16
      ensures RoundAt(o, v, p)[q[k]] == v[q[k]]
    {
      ScatterElsewhere(v, p, Listed(Round(o, Gather(v, p))), q[k]);
    }
  }

  lemma ColumnsApart(i: nat, j: nat)
    requires i < 8 && j < 8
    ensures InRange(ColumnWords(i), 128) && Distinct(ColumnWords(i))
    ensures i != j ==> Apart(ColumnWords(i), ColumnWords(j))
  {
  }

  /** A word of a row round tells the round and its place in it. */
  lemma RowWordIs(i: nat, k: nat)
    requires i < 8 && k < 16
    ensures var j := RowWords(i)[k]; j < 128 && j / 16 == k / 2 && j % 16 / 2 == i && j % 2 == k % 2
  {
    var h, b := k / 2, k % 2;
    assert RowWords(i)[k] == 16 * h + (2 * i + b);
  }

  lemma RowsApart(i: nat, j: nat)
    requires i < 8 && j < 8
    ensures InRange(RowWords(i), 128) && Distinct(RowWords(i))
    ensures i != j ==> Apart(RowWords(i), RowWords(j))
  {
    var p, q := RowWords(i), RowWords(j);
    forall k | 0 <= k < 16
      ensures p[k] < 128 && p[k] / 16 == k / 2 && p[k] % 16 / 2 == i && p[k] % 2 == k % 2
    {
      RowWordIs(i, k);
    }
    forall k | 0 <= k < 16
      ensures q[k] % 16 / 2 == j
    {
      RowWordIs(j, k);
    }
  }

  lemma {:induction false} ColumnRoundsApart<T>(o: Ops<T>, v: seq<T>, n: nat, i: nat)
    requires |v| == 128 && n <= 8 && i < 8 && InRange(ColumnWords(i), 128)
    ensures var w := Gather(v, ColumnWords(i));
            Gather(ColumnRounds(o, v, n), ColumnWords(i)) == if i < n then Round(o, w) else w
  {
    if n != 0 {
      ColumnRoundsApart(o, v, n - 1, i);
      ColumnsApart(n - 1, i);
      if i == n - 1 {
        RoundWrites(o, ColumnRounds(o, v, n - 1), ColumnWords(i));
      } else {
        RoundLeaves(o, ColumnRounds(o, v, n - 1), ColumnWords(n - 1), ColumnWords(i));
      }
    }
  }

  lemma {:induction false} RowRoundsApart<T>(o: Ops<T>, v: seq<T>, n: nat, i: nat)
    requires |v| == 128 && n <= 8 && i < 8 && InRange(RowWords(i), 128)
    ensures var w := Gather(v, RowWords(i));
            Gather(RowRounds(o, v, n), RowWords(i)) == if i < n then Round(o, w) else w
  {
    if n != 0 {
      RowRoundsApart(o, v, n - 1, i);
      RowsApart(n - 1, i);
      if i == n - 1 {
        RoundWrites(o, RowRounds(o, v, n - 1), RowWords(i));
      } else {
        RoundLeaves(o, RowRounds(o, v, n - 1), RowWords(n - 1), RowWords(i));
      }
    }
  }

  /** Words 16 * i to 16 * i + 15, a row of the matrix of 128-bit registers. */
  ghost predicate IsRow(p: seq<nat>, i: nat) {
    |p| == 16 && i < 8 && forall k :: 0 <= k < 16 ==> p[k] == 16 * i + k
  }

  /** The pairs 2 * i and 2 * i + 1 of each row, a column of it. */
  ghost predicate IsColumn(p: seq<nat>, i: nat) {
    |p| == 16 && i < 8 && forall k :: 0 <= k < 8 ==> p[2 * k] == 16 * k + 2 * i && p[2 * k + 1] == 16 * k + 2 * i + 1
  }

  /** Every word of a block lies in a row and in a column. */
  lemma WordHasRowAndColumn(j: nat, p: seq<nat>, q: seq<nat>)
    requires j < 128 && IsRow(p, j / 16) && IsColumn(q, j % 16 / 2)
    ensures j in p && j in q
  {
    var row, column := j / 16, j % 16 / 2;
    assert p[j % 16] == j;
    assert q[2 * row] == 16 * row + 2 * column && q[2 * row + 1] == 16 * row + 2 * column + 1;
    assert j == 16 * row + 2 * column || j == 16 * row + 2 * column + 1;
  }

  lemma RowIsColumnWords(p: seq<nat>, i: nat)
    requires IsRow(p, i)
    ensures p == ColumnWords(i)
  {
  }

  lemma ColumnIsRowWords(p: seq<nat>, i: nat)
    requires IsColumn(p, i)
    ensures p == RowWords(i)
  {
    forall k | 0 <= k < 16
      ensures p[k] == RowWords(i)[k]
    {
      assert k == 2 * (k / 2) || k == 2 * (k / 2) + 1;
    }
  }

  /** R, Q and Z of section 3.5 of RFC 9106; with an overlay the block that was there is XORed in as well. */
  lemma CompressionOfRfc<T>(o: Ops<T>, prev: seq<T>, reference: seq<T>, overlay: Overlay<seq<T>>)
    returns (r: seq<T>, q: seq<T>, z: seq<T>)
    requires |prev| == |reference| == 128 && Block128(overlay)
    ensures |r| == |q| == |z| == 128
    ensures forall k :: 0 <= k < 128 ==> r[k] == o.xor(reference[k], prev[k])
    ensures forall p, i | IsRow(p, i) :: InRange(p, 128) && Gather(q, p) == Round(o, Gather(r, p))
    ensures forall p, i | IsColumn(p, i) :: InRange(p, 128) && Gather(z, p) == Round(o, Gather(q, p))
    ensures forall k :: 0 <= k < 128 ==>
              Compress(o, prev, reference, overlay)[k]
              == o.xor(if overlay.XorOver? then o.xor(r[k], overlay.present[k]) else r[k], z[k])
  {
    r := Xor(o, reference, prev);
    q := ColumnRounds(o, r, 8);
    z := RowRounds(o, q, 8);
    forall p, i | IsRow(p, i)
      ensures InRange(p, 128) && Gather(q, p) == Round(o, Gather(r, p))
    {
      RowIsColumnWords(p, i);
      ColumnsApart(i, i);
      ColumnRoundsApart(o, r, 8, i);
    }
    forall p, i | IsColumn(p, i)
      ensures InRange(p, 128) && Gather(z, p) == Round(o, Gather(q, p))
    {
      ColumnIsRowWords(p, i);
      RowsApart(i, i);
      RowRoundsApart(o, q, 8, i);
    }
  }
}
