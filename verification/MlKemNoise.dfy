/** The algebra behind decryption: in v - s u the public matrix cancels and
    only noise products are left. */
module MlKemNoise {
  import opened ModArith
  import opened MlKemField
  import opened MlKemNtt
  import opened MlKemRing
  import opened MlKemPke

  /** Coefficient p as an integer. */
  function At(f: Poly, p: nat): int
    requires p < 256
  {
    f[p]
  }

  lemma AddAt(a: Poly, b: Poly, p: nat)
    requires p < 256
    ensures Cong(At(PolyAdd(a, b), p), At(a, p) + At(b, p), Q)
    ensures Cong(At(PolySub(a, b), p), At(a, p) - At(b, p), Q)
  {
    CongReduce(At(a, p) + At(b, p), Q);
    ShiftedDifference(At(a, p), At(b, p));
  }

  /** Three sums in a row, coefficient by coefficient. */
  lemma AddAt3(a: Poly, b: Poly, c: Poly, d: Poly, p: nat)
    requires p < 256
    ensures Cong(At(PolyAdd(PolyAdd(PolyAdd(a, b), c), d), p), At(a, p) + At(b, p) + At(c, p) + At(d, p), Q)
  {
    hide PolyAdd, At;
    var ab, abc := PolyAdd(a, b), PolyAdd(PolyAdd(a, b), c);
    AddAt(a, b, p);
    AddAt(ab, c, p);
    AddAt(abc, d, p);
    CongAdd(At(ab, p), At(a, p) + At(b, p), At(c, p), At(c, p), Q);
    CongAdd(At(abc, p), At(a, p) + At(b, p) + At(c, p), At(d, p), At(d, p), Q);
  }

  lemma MulAcc3(acc: Poly, a: seq<Raw>, b: seq<Poly>)
    requires |a| == 3 && |b| == 3
    ensures MulAcc(acc, a, b)
      == PolyAdd(PolyAdd(PolyAdd(acc, BaseMul(a[0], b[0])), BaseMul(a[1], b[1])), BaseMul(a[2], b[2]))
  {
    hide PolyAdd, BaseMul;
    var x := PolyAdd(acc, BaseMul(a[0], b[0]));
    assert MulAcc(acc, a, b) == MulAcc(x, a[1..], b[1..]);
    var y := PolyAdd(x, BaseMul(a[1..][0], b[1..][0]));
    assert MulAcc(x, a[1..], b[1..]) == MulAcc(y, a[1..][1..], b[1..][1..]);
    var z := PolyAdd(y, BaseMul(a[1..][1..][0], b[1..][1..][0]));
    assert a[1..][1..][1..] == [] && b[1..][1..][1..] == [];
  }

  /** a0 b0 + a1 b1 + a2 b2 at coefficient p. */
  function DotAt(a: seq<Poly>, b: seq<Poly>, p: nat): int
    requires |a| == 3 && |b| == 3 && p < 256
  {
    At(BaseMul(a[0], b[0]), p) + At(BaseMul(a[1], b[1]), p) + At(BaseMul(a[2], b[2]), p)
  }

  lemma MulAccAt(a: seq<Poly>, b: seq<Poly>, p: nat)
    requires |a| == 3 && |b| == 3 && p < 256
    ensures Cong(At(MulAcc(Zero(), a, b), p), DotAt(a, b, p), Q)
  {
    hide PolyAdd, BaseMul, MulAcc, Cong, At, Zero;
    MulAcc3(Zero(), a, b);
    AddAt3(Zero(), BaseMul(a[0], b[0]), BaseMul(a[1], b[1]), BaseMul(a[2], b[2]), p);
    ZeroAt(p);
  }

  lemma ZeroAt(p: nat)
    requires p < 256
    ensures At(Zero(), p) == 0
  {
  }

  /** The triple product shared by the two sides, at coefficient p. */
  function Triple(s: Poly, a: Poly, y: Poly, p: nat): int
    requires p < 256
  {
    At(BaseMul(s, BaseMul(a, y)), p)
  }

  lemma Regroup(a: Poly, s: Poly, y: Poly)
    ensures BaseMul(BaseMul(a, s), y) == BaseMul(s, BaseMul(a, y))
  {
    hide BaseMul;
    BaseMulCommutes(a, s);
    BaseMulAssociates(s, a, y);
  }

  lemma DistributeRight(a: Poly, b: Poly, d: Poly)
    ensures BaseMul(d, PolyAdd(a, b)) == PolyAdd(BaseMul(d, a), BaseMul(d, b))
  {
    hide BaseMul, PolyAdd;
    BaseMulCommutes(d, PolyAdd(a, b));
    BaseMulDistributes(a, b, d);
    BaseMulCommutes(a, d);
    BaseMulCommutes(b, d);
  }

  /** The products of one matrix row: s0 a0 y + s1 a1 y + s2 a2 y. */
  function RowAt(a: Vec, s: Vec, y: Poly, p: nat): int
    requires p < 256
  {
    Triple(s[0], a[0], y, p) + Triple(s[1], a[1], y, p) + Triple(s[2], a[2], y, p)
  }

  /** The products of one matrix column: s a0 y0 + s a1 y1 + s a2 y2. */
  function ColumnAt(a: Vec, s: Poly, y: Vec, p: nat): int
    requires p < 256
  {
    Triple(s, a[0], y[0], p) + Triple(s, a[1], y[1], p) + Triple(s, a[2], y[2], p)
  }

  /** (e + a0 s0 + a1 s1 + a2 s2) y. */
  lemma RowTerm(e: Poly, a: Vec, s: Vec, y: Poly, p: nat)
    requires p < 256
    ensures Cong(At(BaseMul(MulAcc(e, a, s), y), p), At(BaseMul(e, y), p) + RowAt(a, s, y, p), Q)
  {
    hide BaseMul, PolyAdd, MulAcc, Cong, At;
    MulAcc3(e, a, s);
    var x0, x1, x2 := BaseMul(a[0], s[0]), BaseMul(a[1], s[1]), BaseMul(a[2], s[2]);
    BaseMulDistributes(PolyAdd(PolyAdd(e, x0), x1), x2, y);
    BaseMulDistributes(PolyAdd(e, x0), x1, y);
    BaseMulDistributes(e, x0, y);
    Regroup(a[0], s[0], y);
    Regroup(a[1], s[1], y);
    Regroup(a[2], s[2], y);
    AddAt3(BaseMul(e, y), BaseMul(x0, y), BaseMul(x1, y), BaseMul(x2, y), p);
  }

  lemma ZeroProduct(s: Poly)
    ensures BaseMul(s, Zero()) == Zero()
  {
    hide Gamma, BaseMul;
    forall i | 0 <= i < 128
      ensures PairsAgree(BaseMul(s, Zero()), Zero(), i)
    {
      BaseMulAt(s, Zero(), i);
      ZeroPair(s[2 * i], s[2 * i + 1], Gamma(i));
    }
    EqualByPairs(BaseMul(s, Zero()), Zero());
  }

  lemma ZeroPair(a: int, b: int, c: int)
    ensures PairLow(a, b, 0, 0, c) == 0 && PairHigh(a, b, 0, 0) == 0
  {
  }

  /** s (a0 y0 + a1 y1 + a2 y2 + n). */
  lemma ColumnTerm(s: Poly, a: Vec, y: Vec, n: Poly, p: nat)
    requires p < 256
    ensures Cong(At(BaseMul(s, PolyAdd(MulAcc(Zero(), a, y), n)), p), ColumnAt(a, s, y, p) + At(BaseMul(s, n), p), Q)
  {
    hide BaseMul, PolyAdd, MulAcc, Zero, At, Cong;
    MulAcc3(Zero(), a, y);
    var x0, x1, x2 := BaseMul(a[0], y[0]), BaseMul(a[1], y[1]), BaseMul(a[2], y[2]);
    var acc := MulAcc(Zero(), a, y);
    DistributeRight(acc, n, s);
    DistributeRight(PolyAdd(PolyAdd(Zero(), x0), x1), x2, s);
    DistributeRight(PolyAdd(Zero(), x0), x1, s);
    DistributeRight(Zero(), x0, s);
    ZeroProduct(s);
    AddAt3(Zero(), BaseMul(s, x0), BaseMul(s, x1), BaseMul(s, x2), p);
    AddAt(BaseMul(s, acc), BaseMul(s, n), p);
    ZeroAt(p);
    CongSum(At(PolyAdd(BaseMul(s, acc), BaseMul(s, n)), p), At(BaseMul(s, acc), p), ColumnAt(a, s, y, p), At(BaseMul(s, n), p));
  }

  lemma CongSum(x: int, a: int, b: int, c: int)
    requires Cong(x, a + c, Q) && Cong(a, b, Q)
    ensures Cong(x, b + c, Q)
  {
    CongAdd(a, b, c, c, Q);
  }

  /** Summands congruent to sums, summed. */
  lemma SumOfSums(x: int, x0: int, x1: int, x2: int, y0: int, y1: int, y2: int)
    requires Cong(x, x0 + x1 + x2, Q) && Cong(x0, y0, Q) && Cong(x1, y1, Q) && Cong(x2, y2, Q)
    ensures Cong(x, y0 + y1 + y2, Q)
  {
    CongAdd(x0, y0, x1, y1, Q);
    CongAdd(x0 + x1, y0 + y1, x2, y2, Q);
  }

  /** e y plus the products of all rows, and s n plus those of all columns. */
  function RowsTotal(e: Vec, a: seq<Vec>, s: Vec, y: Vec, p: nat): int
    requires |a| == 3 && p < 256
  {
    DotAt(e, y, p) + (RowAt(a[0], s, y[0], p) + RowAt(a[1], s, y[1], p) + RowAt(a[2], s, y[2], p))
  }

  function ColumnsTotal(s: Vec, b: seq<Vec>, y: Vec, n: Vec, p: nat): int
    requires |b| == 3 && p < 256
  {
    DotAt(s, n, p) + (ColumnAt(b[0], s[0], y, p) + ColumnAt(b[1], s[1], y, p) + ColumnAt(b[2], s[2], y, p))
  }

  /** The rows (e + A s) y: every product of A appears once, as a triple. */
  lemma RowsAt(e: Vec, a: seq<Vec>, s: Vec, y: Vec, t: Vec, p: nat)
    requires |a| == 3 && p < 256
    requires t == [MulAcc(e[0], a[0], s), MulAcc(e[1], a[1], s), MulAcc(e[2], a[2], s)]
    ensures Cong(At(MulAcc(Zero(), t, y), p), RowsTotal(e, a, s, y, p), Q)
  {
    hide BaseMul, MulAcc, Cong, Zero, At, RowAt;
    MulAccAt(t, y, p);
    RowTerm(e[0], a[0], s, y[0], p);
    RowTerm(e[1], a[1], s, y[1], p);
    RowTerm(e[2], a[2], s, y[2], p);
    SumOfSums(At(MulAcc(Zero(), t, y), p),
      At(BaseMul(t[0], y[0]), p), At(BaseMul(t[1], y[1]), p), At(BaseMul(t[2], y[2]), p),
      At(BaseMul(e[0], y[0]), p) + RowAt(a[0], s, y[0], p),
      At(BaseMul(e[1], y[1]), p) + RowAt(a[1], s, y[1], p),
      At(BaseMul(e[2], y[2]), p) + RowAt(a[2], s, y[2], p));
  }

  /** The columns s (A^T y + n): the same triples, and the products with n. */
  lemma ColumnsAt(s: Vec, b: seq<Vec>, y: Vec, n: Vec, u: Vec, p: nat)
    requires |b| == 3 && p < 256
    requires u == [PolyAdd(MulAcc(Zero(), b[0], y), n[0]), PolyAdd(MulAcc(Zero(), b[1], y), n[1]), PolyAdd(MulAcc(Zero(), b[2], y), n[2])]
    ensures Cong(At(MulAcc(Zero(), s, u), p), ColumnsTotal(s, b, y, n, p), Q)
  {
    hide BaseMul, MulAcc, Cong, Zero, PolyAdd, At, ColumnAt;
    MulAccAt(s, u, p);
    ColumnTerm(s[0], b[0], y, n[0], p);
    ColumnTerm(s[1], b[1], y, n[1], p);
    ColumnTerm(s[2], b[2], y, n[2], p);
    SumOfSums(At(MulAcc(Zero(), s, u), p),
      At(BaseMul(s[0], u[0]), p), At(BaseMul(s[1], u[1]), p), At(BaseMul(s[2], u[2]), p),
      ColumnAt(b[0], s[0], y, p) + At(BaseMul(s[0], n[0]), p),
      ColumnAt(b[1], s[1], y, p) + At(BaseMul(s[1], n[1]), p),
      ColumnAt(b[2], s[2], y, p) + At(BaseMul(s[2], n[2]), p));
  }

  predicate Transposed(a: seq<Vec>, b: seq<Vec>)
    requires |a| == 3 && |b| == 3
  {
    b[0] == [a[0][0], a[1][0], a[2][0]] && b[1] == [a[0][1], a[1][1], a[2][1]] && b[2] == [a[0][2], a[1][2], a[2][2]]
  }

  /** (e + A s) y - s (A^T y + n) = e y - s n, whatever the matrix. */
  lemma MatrixCancels(e: Vec, a: seq<Vec>, b: seq<Vec>, s: Vec, y: Vec, n: Vec, t: Vec, u: Vec)
    requires |a| == 3 && |b| == 3
    requires Transposed(a, b)
    requires t == [MulAcc(e[0], a[0], s), MulAcc(e[1], a[1], s), MulAcc(e[2], a[2], s)]
    requires u == [PolyAdd(MulAcc(Zero(), b[0], y), n[0]), PolyAdd(MulAcc(Zero(), b[1], y), n[1]), PolyAdd(MulAcc(Zero(), b[2], y), n[2])]
    ensures PolySub(MulAcc(Zero(), t, y), MulAcc(Zero(), s, u))
      == PolySub(MulAcc(Zero(), e, y), MulAcc(Zero(), s, n))
  {
    hide BaseMul, MulAcc, Cong, Zero, PolyAdd, At, Transposed;
    var l, r := PolySub(MulAcc(Zero(), t, y), MulAcc(Zero(), s, u)), PolySub(MulAcc(Zero(), e, y), MulAcc(Zero(), s, n));
    forall p | 0 <= p < 256
      ensures l[p] == r[p]
    {
      MatrixCancelsAt(e, a, b, s, y, n, t, u, p);
    }
  }

  lemma MatrixCancelsAt(e: Vec, a: seq<Vec>, b: seq<Vec>, s: Vec, y: Vec, n: Vec, t: Vec, u: Vec, p: nat)
    requires |a| == 3 && |b| == 3 && p < 256
    requires Transposed(a, b)
    requires t == [MulAcc(e[0], a[0], s), MulAcc(e[1], a[1], s), MulAcc(e[2], a[2], s)]
    requires u == [PolyAdd(MulAcc(Zero(), b[0], y), n[0]), PolyAdd(MulAcc(Zero(), b[1], y), n[1]), PolyAdd(MulAcc(Zero(), b[2], y), n[2])]
    ensures PolySub(MulAcc(Zero(), t, y), MulAcc(Zero(), s, u))[p]
      == PolySub(MulAcc(Zero(), e, y), MulAcc(Zero(), s, n))[p]
  {
    hide BaseMul, MulAcc, Zero, PolyAdd, PolySub, Triple, DotAt, RowAt, ColumnAt, At, ReducedDifference, Transposed;
    var x, z, v, w := MulAcc(Zero(), t, y), MulAcc(Zero(), s, u), MulAcc(Zero(), e, y), MulAcc(Zero(), s, n);
    SubAt(x, z, p);
    SubAt(v, w, p);
    SameTriples(a, b, s, y, p);
    RowsAt(e, a, s, y, t, p);
    ColumnsAt(s, b, y, n, u, p);
    MulAccAt(e, y, p);
    MulAccAt(s, n, p);
    SameDifference(At(x, p), At(z, p), At(v, p), At(w, p),
      RowsTotal(e, a, s, y, p), ColumnsTotal(s, b, y, n, p), DotAt(e, y, p), DotAt(s, n, p));
  }

  function ReducedDifference(x: int, y: int): int {
    (x + Q - y) % Q
  }

  lemma SubAt(a: Poly, b: Poly, p: nat)
    requires p < 256
    ensures PolySub(a, b)[p] == ReducedDifference(At(a, p), At(b, p))
  {
  }

  /** Row sums and column sums of the nine triples agree. */
  lemma SameTriples(a: seq<Vec>, b: seq<Vec>, s: Vec, y: Vec, p: nat)
    requires |a| == 3 && |b| == 3 && p < 256
    requires Transposed(a, b)
    ensures RowAt(a[0], s, y[0], p) + RowAt(a[1], s, y[1], p) + RowAt(a[2], s, y[2], p)
      == ColumnAt(b[0], s[0], y, p) + ColumnAt(b[1], s[1], y, p) + ColumnAt(b[2], s[2], y, p)
  {
    hide Triple;
  }

  lemma SameDifference(x: int, z: int, v: int, w: int, rx: int, rz: int, rv: int, rw: int)
    requires Cong(x, rx, Q) && Cong(z, rz, Q) && Cong(v, rv, Q) && Cong(w, rw, Q)
    requires rx - rz == rv - rw
    ensures ReducedDifference(x, z) == ReducedDifference(v, w)
  {
    CongSub(x, rx, z, rz, Q);
    CongSub(v, rv, w, rw, Q);
    ShiftedDifference(x, z);
    ShiftedDifference(v, w);
  }

  // ----- back to polynomials -----

  /** acc + a[0] b[0] + a[1] b[1] + ..., with ring products. */
  function PolyMulAcc(acc: Poly, a: seq<Poly>, b: seq<Poly>): Poly
    requires |a| == |b|
    decreases |a|
  {
    if a == [] then acc else PolyMulAcc(PolyAdd(acc, PolyMul(a[0], b[0])), a[1..], b[1..])
  }

  lemma {:induction false} NttOfMulAcc(acc: Poly, a: seq<Poly>, b: seq<Poly>)
    requires |a| == |b|
    ensures MulAcc(Ntt(acc), NttVec(a), NttVec(b)) == Ntt(PolyMulAcc(acc, a, b))
    decreases |a|
  {
    hide Ntt, PolyAdd, PolyMul, BaseMul;
    if a != [] {
      NttOfProduct(a[0], b[0]);
      NttOfSum(acc, PolyMul(a[0], b[0]));
      NttOfMulAcc(PolyAdd(acc, PolyMul(a[0], b[0])), a[1..], b[1..]);
      assert NttVec(a)[1..] == NttVec(a[1..]) && NttVec(b)[1..] == NttVec(b[1..]);
    }
  }

  lemma NttOfZero()
    ensures Ntt(Zero()) == Zero()
  {
    hide Ntt;
    NttOfSum(Zero(), Zero());
    assert PolySub(Zero(), Zero()) == Zero();
    var z := Ntt(Zero());
    forall p | 0 <= p < 256
      ensures PolySub(z, z)[p] == 0
    {
      DivModUnique(z[p] + Q - z[p], Q, 1, 0);
    }
  }

  /** Products accumulated in the transform domain, read as polynomials. */
  lemma InttOfMulAcc(a: seq<Poly>, b: seq<Poly>)
    requires |a| == |b|
    ensures Intt(MulAcc(Zero(), NttVec(a), NttVec(b))) == PolyMulAcc(Zero(), a, b)
  {
    hide Ntt, Intt, PolyMulAcc, MulAcc, Zero;
    NttOfZero();
    NttOfMulAcc(Zero(), a, b);
    InttNtt(PolyMulAcc(Zero(), a, b));
  }
}
