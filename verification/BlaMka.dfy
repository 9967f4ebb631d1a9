/**
 The BlaMka round, scalar (external/argon2/blamka-round-ref.h:25-55) and on pairs of words in 128-bit registers
 (external/argon2/blamka-round-opt.h:59-181). Both are written over an arbitrary word type and arbitrary word
 operations, so that their equality owes nothing to what the operations compute.
 */
module BlaMka {
  /** The operations a round is made of: fBlaMka, exclusive or, and rotation to the right. */
  datatype Ops<!T> = Ops(f: (T, T) -> T, xor: (T, T) -> T, rotr: (T, nat) -> T)

  // ----- The scalar round -----

  datatype Quad<T> = Quad(a: T, b: T, c: T, d: T)

  function G<T>(o: Ops<T>, q: Quad<T>): Quad<T> {
    var q := q.(a := o.f(q.a, q.b));
    var q := q.(d := o.rotr(o.xor(q.d, q.a), 32));
    var q := q.(c := o.f(q.c, q.d));
    var q := q.(b := o.rotr(o.xor(q.b, q.c), 24));
    var q := q.(a := o.f(q.a, q.b));
    var q := q.(d := o.rotr(o.xor(q.d, q.a), 16));
    var q := q.(c := o.f(q.c, q.d));
    q.(b := o.rotr(o.xor(q.b, q.c), 63))
  }

  datatype Words16<T> = Words16(v0: T, v1: T, v2: T, v3: T, v4: T, v5: T, v6: T, v7: T,
                                v8: T, v9: T, v10: T, v11: T, v12: T, v13: T, v14: T, v15: T)

  /** BLAKE2_ROUND_NOMSG: the four columns, then the four diagonals. */
  function Round<T>(o: Ops<T>, w: Words16<T>): Words16<T> {
    var q := G(o, Quad(w.v0, w.v4, w.v8, w.v12));
    var w := w.(v0 := q.a, v4 := q.b, v8 := q.c, v12 := q.d);
    var q := G(o, Quad(w.v1, w.v5, w.v9, w.v13));
    var w := w.(v1 := q.a, v5 := q.b, v9 := q.c, v13 := q.d);
    var q := G(o, Quad(w.v2, w.v6, w.v10, w.v14));
    var w := w.(v2 := q.a, v6 := q.b, v10 := q.c, v14 := q.d);
    var q := G(o, Quad(w.v3, w.v7, w.v11, w.v15));
    var w := w.(v3 := q.a, v7 := q.b, v11 := q.c, v15 := q.d);
    var q := G(o, Quad(w.v0, w.v5, w.v10, w.v15));
    var w := w.(v0 := q.a, v5 := q.b, v10 := q.c, v15 := q.d);
    var q := G(o, Quad(w.v1, w.v6, w.v11, w.v12));
    var w := w.(v1 := q.a, v6 := q.b, v11 := q.c, v12 := q.d);
    var q := G(o, Quad(w.v2, w.v7, w.v8, w.v13));
    var w := w.(v2 := q.a, v7 := q.b, v8 := q.c, v13 := q.d);
    var q := G(o, Quad(w.v3, w.v4, w.v9, w.v14));
    w.(v3 := q.a, v4 := q.b, v9 := q.c, v14 := q.d)
  }

  // ----- The register round -----

  /** A 128-bit register holding two words. */
  datatype Reg<T> = Reg(lo: T, hi: T)

  datatype Regs<T> = Regs(a0: Reg<T>, a1: Reg<T>, b0: Reg<T>, b1: Reg<T>,
                          c0: Reg<T>, c1: Reg<T>, d0: Reg<T>, d1: Reg<T>)

  function G1<T>(o: Ops<Reg<T>>, r: Regs<T>): Regs<T> {
    HalfG(o, r, 32, 24)
  }

  function G2<T>(o: Ops<Reg<T>>, r: Regs<T>): Regs<T> {
    HalfG(o, r, 16, 63)
  }

  /** The common text of the macros G1 and G2, which differ in their two rotations. */
  function HalfG<T>(o: Ops<Reg<T>>, r: Regs<T>, rotD: nat, rotB: nat): Regs<T> {
    var r := r.(a0 := o.f(r.a0, r.b0), a1 := o.f(r.a1, r.b1));
    var r := r.(d0 := o.xor(r.d0, r.a0), d1 := o.xor(r.d1, r.a1));
    var r := r.(d0 := o.rotr(r.d0, rotD), d1 := o.rotr(r.d1, rotD));
    var r := r.(c0 := o.f(r.c0, r.d0), c1 := o.f(r.c1, r.d1));
    var r := r.(b0 := o.xor(r.b0, r.c0), b1 := o.xor(r.b1, r.c1));
    r.(b0 := o.rotr(r.b0, rotB), b1 := o.rotr(r.b1, rotB))
  }

  /** _mm_alignr_epi8(x, y, 8): the sixteen bytes of x:y that begin eight bytes up. */
  function AlignR8<T>(x: Reg<T>, y: Reg<T>): Reg<T> {
    Reg(y.hi, x.lo)
  }

  function UnpackHi<T>(x: Reg<T>, y: Reg<T>): Reg<T> {
    Reg(x.hi, y.hi)
  }

  function UnpackLo<T>(x: Reg<T>, y: Reg<T>): Reg<T> {
    Reg(x.lo, y.lo)
  }

  function DiagonalizeSsse3<T>(r: Regs<T>): Regs<T> {
    var t0, t1 := AlignR8(r.b1, r.b0), AlignR8(r.b0, r.b1);
    var r := r.(b0 := t0, b1 := t1);
    var r := r.(c0 := r.c1, c1 := r.c0);
    var t0, t1 := AlignR8(r.d1, r.d0), AlignR8(r.d0, r.d1);
    r.(d0 := t1, d1 := t0)
  }

  function UndiagonalizeSsse3<T>(r: Regs<T>): Regs<T> {
    var t0, t1 := AlignR8(r.b0, r.b1), AlignR8(r.b1, r.b0);
    var r := r.(b0 := t0, b1 := t1);
    var r := r.(c0 := r.c1, c1 := r.c0);
    var t0, t1 := AlignR8(r.d0, r.d1), AlignR8(r.d1, r.d0);
    r.(d0 := t1, d1 := t0)
  }

  function DiagonalizeSse2<T>(r: Regs<T>): Regs<T> {
    var t0, t1 := r.d0, r.b0;
    var r := r.(d0 := r.c0);
    var r := r.(c0 := r.c1);
    var r := r.(c1 := r.d0);
    var r := r.(d0 := UnpackHi(r.d1, UnpackLo(t0, t0)));
    var r := r.(d1 := UnpackHi(t0, UnpackLo(r.d1, r.d1)));
    var r := r.(b0 := UnpackHi(r.b0, UnpackLo(r.b1, r.b1)));
    r.(b1 := UnpackHi(r.b1, UnpackLo(t1, t1)))
  }

  function UndiagonalizeSse2<T>(r: Regs<T>): Regs<T> {
    var t0 := r.c0;
    var r := r.(c0 := r.c1);
    var r := r.(c1 := t0);
    var t0, t1 := r.b0, r.d0;
    var r := r.(b0 := UnpackHi(r.b1, UnpackLo(r.b0, r.b0)));
    var r := r.(b1 := UnpackHi(t0, UnpackLo(r.b1, r.b1)));
    var r := r.(d0 := UnpackHi(r.d0, UnpackLo(r.d1, r.d1)));
    r.(d1 := UnpackHi(r.d1, UnpackLo(t1, t1)))
  }

  /** BLAKE2_ROUND with the shuffles of SSSE3 or of SSE2. */
  function RegisterRound<T>(o: Ops<Reg<T>>, ssse3: bool, r: Regs<T>): Regs<T> {
    var r := G2(o, G1(o, r));
    var r := if ssse3 then DiagonalizeSsse3(r) else DiagonalizeSse2(r);
    var r := G2(o, G1(o, r));
    if ssse3 then UndiagonalizeSsse3(r) else UndiagonalizeSse2(r)
  }

  // ----- Refinement -----

  /** The register operations work on the two halves separately. */
  ghost predicate Lifts<T(!new)>(ro: Ops<Reg<T>>, o: Ops<T>) {
    && (forall x, y :: ro.f(x, y) == Reg(o.f(x.lo, y.lo), o.f(x.hi, y.hi)))
    && (forall x, y :: ro.xor(x, y) == Reg(o.xor(x.lo, y.lo), o.xor(x.hi, y.hi)))
    && forall x, n | n in {16, 24, 32, 63} :: ro.rotr(x, n) == Reg(o.rotr(x.lo, n), o.rotr(x.hi, n))
  }

  function Pack<T>(w: Words16<T>): Regs<T> {
    Regs(Reg(w.v0, w.v1), Reg(w.v2, w.v3), Reg(w.v4, w.v5), Reg(w.v6, w.v7),
         Reg(w.v8, w.v9), Reg(w.v10, w.v11), Reg(w.v12, w.v13), Reg(w.v14, w.v15))
  }

  /** The two halves of G as the scalar code runs them, on one column of each register. */
  function HalfQuad<T>(o: Ops<T>, q: Quad<T>, rotD: nat, rotB: nat): Quad<T> {
    var q := q.(a := o.f(q.a, q.b));
    var q := q.(d := o.rotr(o.xor(q.d, q.a), rotD));
    var q := q.(c := o.f(q.c, q.d));
    q.(b := o.rotr(o.xor(q.b, q.c), rotB))
  }

  /** The four columns of the register matrix. */
  function Columns<T>(r: Regs<T>): (Quad<T>, Quad<T>, Quad<T>, Quad<T>) {
    (Quad(r.a0.lo, r.b0.lo, r.c0.lo, r.d0.lo), Quad(r.a0.hi, r.b0.hi, r.c0.hi, r.d0.hi),
     Quad(r.a1.lo, r.b1.lo, r.c1.lo, r.d1.lo), Quad(r.a1.hi, r.b1.hi, r.c1.hi, r.d1.hi))
  }

  function FromColumns<T>(q0: Quad<T>, q1: Quad<T>, q2: Quad<T>, q3: Quad<T>): Regs<T> {
    Regs(Reg(q0.a, q1.a), Reg(q2.a, q3.a), Reg(q0.b, q1.b), Reg(q2.b, q3.b),
         Reg(q0.c, q1.c), Reg(q2.c, q3.c), Reg(q0.d, q1.d), Reg(q2.d, q3.d))
  }

  lemma HalfGIsFourHalfQuads<T(!new)>(ro: Ops<Reg<T>>, o: Ops<T>, r: Regs<T>, rotD: nat, rotB: nat)
    requires Lifts(ro, o) && rotD in {16, 24, 32, 63} && rotB in {16, 24, 32, 63}
    ensures var (q0, q1, q2, q3) := Columns(r);
            HalfG(ro, r, rotD, rotB) == FromColumns(HalfQuad(o, q0, rotD, rotB), HalfQuad(o, q1, rotD, rotB),
                                                    HalfQuad(o, q2, rotD, rotB), HalfQuad(o, q3, rotD, rotB))
  {
  }

  lemma GIsTwoHalves<T>(o: Ops<T>, q: Quad<T>)
    ensures G(o, q) == HalfQuad(o, HalfQuad(o, q, 32, 24), 16, 63)
  {
  }

  /** G1 followed by G2 is the scalar G on each column of the register matrix. */
  lemma RegisterGIsFourGs<T(!new)>(ro: Ops<Reg<T>>, o: Ops<T>, r: Regs<T>)
    requires Lifts(ro, o)
    ensures var (q0, q1, q2, q3) := Columns(r);
            G2(ro, G1(ro, r)) == FromColumns(G(o, q0), G(o, q1), G(o, q2), G(o, q3))
  {
    var (q0, q1, q2, q3) := Columns(r);
    HalfGIsFourHalfQuads(ro, o, r, 32, 24);
    HalfGIsFourHalfQuads(ro, o, G1(ro, r), 16, 63);
    GIsTwoHalves(o, q0);
    GIsTwoHalves(o, q1);
    GIsTwoHalves(o, q2);
    GIsTwoHalves(o, q3);
  }

  lemma ShufflesAgree<T>(r: Regs<T>)
    ensures DiagonalizeSse2(r) == DiagonalizeSsse3(r)
    ensures UndiagonalizeSse2(r) == UndiagonalizeSsse3(r)
    ensures UndiagonalizeSsse3(DiagonalizeSsse3(r)) == r
  {
  }

  /** The register round is the scalar round, whichever shuffles are compiled in. */
  lemma RegisterRoundRefinesRound<T(!new)>(ro: Ops<Reg<T>>, o: Ops<T>, ssse3: bool, w: Words16<T>)
    requires Lifts(ro, o)
    ensures RegisterRound(ro, ssse3, Pack(w)) == Pack(Round(o, w))
  {
    var r := Pack(w);
    RegisterGIsFourGs(ro, o, r);
    var columns := G2(ro, G1(ro, r));
    ShufflesAgree(columns);
    var diagonal := DiagonalizeSsse3(columns);
    RegisterGIsFourGs(ro, o, diagonal);
    ShufflesAgree(G2(ro, G1(ro, diagonal)));
    RoundByQuads(o, w);
  }

  /** The scalar round as data flow: four Gs on columns, four Gs on diagonals. */
  lemma RoundByQuads<T>(o: Ops<T>, w: Words16<T>)
    ensures var c0, c1 := G(o, Quad(w.v0, w.v4, w.v8, w.v12)), G(o, Quad(w.v1, w.v5, w.v9, w.v13));
            var c2, c3 := G(o, Quad(w.v2, w.v6, w.v10, w.v14)), G(o, Quad(w.v3, w.v7, w.v11, w.v15));
            var d0, d1 := G(o, Quad(c0.a, c1.b, c2.c, c3.d)), G(o, Quad(c1.a, c2.b, c3.c, c0.d));
            var d2, d3 := G(o, Quad(c2.a, c3.b, c0.c, c1.d)), G(o, Quad(c3.a, c0.b, c1.c, c2.d));
            Round(o, w) == Words16(d0.a, d1.a, d2.a, d3.a, d3.b, d0.b, d1.b, d2.b,
                                   d2.c, d3.c, d0.c, d1.c, d1.d, d2.d, d3.d, d0.d)
  {
  }
}
