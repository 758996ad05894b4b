/** Any published commitments bind: shares that pass the check against them
    cannot reconstruct to different secrets, even when the commitments are not
    powers of the generator. */
module FeldmanBinding {
  import opened ModArith
  import opened PrimeField
  import opened FeldmanPoly
  import opened Feldman

  // ----- products of powers -----

  /** d[0]^e[0] ... d[n - 1]^e[n - 1]. */
  function Product(d: seq<int>, e: seq<nat>, n: nat): int
    requires n <= |d| && n <= |e|
  {
    if n == 0 then 1 else Product(d, e, n - 1) * Pow(d[n - 1], e[n - 1])
  }

  lemma {:induction false} ProductOfSum(d: seq<int>, a: seq<nat>, b: seq<nat>, c: seq<nat>, n: nat)
    requires n <= |d| && |a| == |b| == |c| && n <= |a|
    requires forall j :: 0 <= j < n ==> c[j] == a[j] + b[j]
    ensures Product(d, c, n) == Product(d, a, n) * Product(d, b, n)
  {
    hide Pow;
    if n != 0 {
      ProductOfSum(d, a, b, c, n - 1);
      PowAdd(d[n - 1], a[n - 1], b[n - 1]);
      Interchange(Product(d, a, n - 1), Product(d, b, n - 1), Pow(d[n - 1], a[n - 1]), Pow(d[n - 1], b[n - 1]));
    }
  }

  lemma Interchange(x: int, y: int, u: int, v: int)
    ensures (x * y) * (u * v) == (x * u) * (y * v)
  {
    Associate(x, y, u * v);
    Associate(y, u, v);
    Associate(x, u, y * v);
    Associate(u, y, v);
  }

  lemma {:induction false} ProductOfScaled(d: seq<int>, a: seq<nat>, k: nat, c: seq<nat>, n: nat)
    requires n <= |d| && |a| == |c| && n <= |a|
    requires forall j :: 0 <= j < n ==> c[j] == k * a[j]
    ensures Product(d, c, n) == Pow(Product(d, a, n), k)
  {
    hide Pow;
    if n == 0 {
      PowOne(k);
    } else {
      ProductOfScaled(d, a, k, c, n - 1);
      PowMul(d[n - 1], a[n - 1], k);
      assert a[n - 1] * k == c[n - 1];
      PowProduct(Product(d, a, n - 1), Pow(d[n - 1], a[n - 1]), k);
    }
  }

  /** Over elements of period q only the exponents modulo q matter. */
  lemma {:induction false} ProductPeriod(d: seq<int>, a: seq<nat>, b: seq<nat>, q: int, m: int, n: nat)
    requires n <= |d| && n <= |a| && n <= |b| && 1 <= q && 0 < m
    requires forall j :: 0 <= j < n ==> Cong(Pow(d[j], q), 1, m) && Cong(a[j], b[j], q)
    ensures Cong(Product(d, a, n), Product(d, b, n), m)
  {
    hide Pow;
    if n != 0 {
      ProductPeriod(d, a, b, q, m, n - 1);
      PowModPeriod(d[n - 1], q, a[n - 1], m);
      PowModPeriod(d[n - 1], q, b[n - 1], m);
      CongMul(Product(d, a, n - 1), Product(d, b, n - 1), Pow(d[n - 1], a[n - 1]), Pow(d[n - 1], b[n - 1]), m);
    }
  }

  // ----- the weights of reconstruction -----

  /** The factor by which share a enters the secret. */
  function Factor(xs: seq<int>, a: nat): (l: nat)
    requires a < |xs|
  {
    var d := Differences(xs, xs[a], a, |xs|) % Q;
    var l := if HasInverse(d, Q) then Inverse(d, Q) * Differences(xs, 0, a, |xs|) else 0;
    CongReduce(l, Q);
    l % Q
  }

  function Factors(xs: seq<int>): (ls: seq<nat>)
    ensures |ls| == |xs| && forall a :: 0 <= a < |xs| ==> ls[a] == Factor(xs, a)
  {
    seq(|xs|, a requires 0 <= a < |xs| => Factor(xs, a))
  }

  function Sum(ls: seq<nat>, vs: seq<nat>, n: nat): nat
    requires n <= |ls| && n <= |vs|
  {
    if n == 0 then 0 else NonNegative(ls[n - 1], vs[n - 1]); Sum(ls, vs, n - 1) + ls[n - 1] * vs[n - 1]
  }

  /** Reconstruction is the sum of factor times value. */
  lemma {:induction false} ReconstructionIsSum(shares: seq<Share>, vs: seq<nat>, n: nat)
    requires n <= |shares| == |vs| && forall a :: 0 <= a < |vs| ==> Cong(vs[a], shares[a].1, Q)
    ensures Cong(Sum(Factors(Points(shares)), vs, n), LagrangeSum(Points(shares), WeightsOf(shares), 0, n), Q)
    decreases n
  {
    hide Differences, HasInverse, Inverse, Factor, Weight;
    if n != 0 {
      var xs := Points(shares);
      ReconstructionIsSum(shares, vs, n - 1);
      FactorIsWeight(shares, vs[n - 1], n - 1);
      CongAdd(Sum(Factors(xs), vs, n - 1), LagrangeSum(xs, WeightsOf(shares), 0, n - 1),
              Factor(xs, n - 1) * vs[n - 1], Weight(shares, n - 1) * Differences(xs, 0, n - 1, |xs|), Q);
    }
  }

  lemma FactorIsWeight(shares: seq<Share>, v: nat, a: nat)
    requires a < |shares| && Cong(v, shares[a].1, Q)
    ensures Cong(Factor(Points(shares), a) * v, Weight(shares, a) * Differences(Points(shares), 0, a, |shares|), Q)
  {
    hide Differences, HasInverse, Inverse;
    var xs := Points(shares);
    var d, n, y := Differences(xs, xs[a], a, |xs|) % Q, Differences(xs, 0, a, |xs|), shares[a].1;
    var inv := if HasInverse(d, Q) then Inverse(d, Q) else 0;
    assert 0 * n == 0 && y * 0 == 0;
    CongReduce(inv * n, Q);
    CongMul(Factor(xs, a), inv * n, v, y, Q);
    Associate(inv, n, y);
    Associate(y, inv, n);
    Associate(inv, y, n);
  }

  // ----- what an accepted share says -----

  /** The exponents that the check uses at point x. */
  function Row(x: int, t: nat): (e: seq<nat>)
    ensures |e| == t && forall j :: 0 <= j < t ==> e[j] == Pow(x, j) % Q
  {
    seq(t, j requires 0 <= j < t => ReducedPower(x, j))
  }

  function ReducedPower(x: int, j: nat): (e: nat)
    ensures e == Pow(x, j) % Q
  {
    CongReduce(Pow(x, j), Q);
    Pow(x, j) % Q
  }

  function Squares(cs: seq<int>): (d: seq<int>)
    ensures |d| == |cs| && forall j :: 0 <= j < |d| ==> d[j] == Pow(cs[j], 2)
  {
    seq(|cs|, j requires 0 <= j < |cs| => Pow(cs[j], 2))
  }

  lemma {:induction false} CombinedSquared(cs: seq<int>, x: int, n: nat)
    requires n <= |cs|
    ensures Pow(Combined(cs, x, Q, n), 2) == Product(Squares(cs), Row(x, |cs|), n)
  {
    hide Pow;
    if n == 0 {
      PowOne(2);
    } else {
      var c, e := cs[n - 1], Row(x, |cs|)[n - 1];
      CombinedSquared(cs, x, n - 1);
      PowProduct(Combined(cs, x, Q, n - 1), Pow(c, e), 2);
      SwapPowers(c, e, 2);
    }
  }

  lemma SwapPowers(c: int, d: nat, e: nat)
    ensures Pow(Pow(c, d), e) == Pow(Pow(c, e), d)
  {
    PowMul(c, d, e);
    PowMul(c, e, d);
    assert d * e == e * d;
  }

  /** The squared check equation. */
  lemma PassedSquared(share: Share, cs: seq<int>, y: nat)
    requires Prime(P) && Prime(Q) && Passes(share, cs) && y == share.1 % Q
    ensures Cong(Pow(Pow(G, 2), y), Product(Squares(cs), Row(share.0, |cs|), |cs|), P)
  {
    hide Pow, Prime, SignedPow, Combined, Product;
    SignedPowPeriod(share.1);
    PowCong(Pow(G, y), Combined(cs, share.0, Q, |cs|), 2, P);
    SwapPowers(G, 2, y);
    CombinedSquared(cs, share.0, |cs|);
  }

  /** Column j of the rows of all points. */
  function Column(xs: seq<int>, j: nat): (v: seq<nat>)
    ensures |v| == |xs| && forall a :: 0 <= a < |xs| ==> v[a] == Pow(xs[a], j) % Q
  {
    seq(|xs|, a requires 0 <= a < |xs| => ReducedPower(xs[a], j))
  }

  /** The weighted sum of the first n rows. */
  function Gathered(xs: seq<int>, t: nat, n: nat): (e: seq<nat>)
    requires n <= |xs|
    ensures |e| == t && forall j :: 0 <= j < t ==> e[j] == Sum(Factors(xs), Column(xs, j), n)
  {
    seq(t, j requires 0 <= j < t => Sum(Factors(xs), Column(xs, j), n))
  }

  function Values(shares: seq<Share>): (ys: seq<nat>)
    ensures |ys| == |shares| && forall a :: 0 <= a < |ys| ==> ys[a] == shares[a].1 % Q
  {
    seq(|shares|, a requires 0 <= a < |shares| => ReducedValue(shares[a].1))
  }

  function ReducedValue(y: int): (v: nat)
    ensures v == y % Q && Cong(v, y, Q)
  {
    CongReduce(y, Q);
    y % Q
  }

  function Scaled(e: seq<nat>, k: nat): (c: seq<nat>)
    ensures |c| == |e| && forall j :: 0 <= j < |e| ==> c[j] == k * e[j]
  {
    seq(|e|, j requires 0 <= j < |e| => ScaledEntry(e[j], k))
  }

  function ScaledEntry(e: nat, k: nat): (c: nat)
    ensures c == k * e
  {
    NonNegative(k, e);
    k * e
  }

  /** Raising the squared equations to the factors and multiplying them. */
  lemma {:induction false} PassedGathered(shares: seq<Share>, cs: seq<int>, n: nat)
    requires Prime(P) && Prime(Q) && n <= |shares|
    requires forall a :: 0 <= a < |shares| ==> Passes(shares[a], cs)
    ensures var xs := Points(shares);
            Cong(Pow(Pow(G, 2), Sum(Factors(xs), Values(shares), n)), Product(Squares(cs), Gathered(xs, |cs|, n), |cs|), P)
    decreases n
  {
    hide Pow, Prime, Passes, Product, Sum, Factor;
    var xs, t, d, h := Points(shares), |cs|, Squares(cs), Pow(G, 2);
    var ls, ys := Factors(xs), Values(shares);
    if n == 0 {
      PowZero(h);
      EmptySum(ls, ys);
      forall j | 0 <= j < t ensures Gathered(xs, t, 0)[j] == 0 {
        EmptySum(ls, Column(xs, j));
      }
      ProductOfZeros(d, Gathered(xs, t, 0), t);
    } else {
      var l, y, row := ls[n - 1], ys[n - 1], Row(xs[n - 1], t);
      var before, after := Gathered(xs, t, n - 1), Gathered(xs, t, n);
      PassedGathered(shares, cs, n - 1);
      PassedSquared(shares[n - 1], cs, y);
      PowCong(Pow(h, y), Product(d, row, t), l, P);
      PowMul(h, y, l);
      NonNegative(l, y);
      PowAdd(h, Sum(ls, ys, n - 1), l * y);
      assert y * l == l * y;
      SumStep(ls, ys, n);
      ProductOfScaled(d, row, l, Scaled(row, l), t);
      forall j | 0 <= j < t ensures after[j] == before[j] + Scaled(row, l)[j] {
        SumStep(ls, Column(xs, j), n);
      }
      ProductOfSum(d, before, Scaled(row, l), after, t);
      CongMul(Pow(h, Sum(ls, ys, n - 1)), Product(d, before, t), Pow(h, l * y), Product(d, Scaled(row, l), t), P);
    }
  }

  lemma EmptySum(ls: seq<nat>, vs: seq<nat>)
    ensures Sum(ls, vs, 0) == 0
  {
  }

  lemma SumStep(ls: seq<nat>, vs: seq<nat>, n: nat)
    requires 1 <= n <= |ls| && n <= |vs|
    ensures Sum(ls, vs, n) == Sum(ls, vs, n - 1) + ls[n - 1] * vs[n - 1]
  {
  }

  lemma {:induction false} ProductOfZeros(d: seq<int>, e: seq<nat>, n: nat)
    requires n <= |d| && n <= |e| && forall j :: 0 <= j < n ==> e[j] == 0
    ensures Product(d, e, n) == 1
  {
    if n != 0 {
      ProductOfZeros(d, e, n - 1);
    }
  }

  // ----- the gathered exponents -----

  /** X^j. */
  function Monomial(j: nat): (f: Coefficients)
    ensures |f| == j + 1
  {
    if j == 0 then [1] else [0] + Monomial(j - 1)
  }

  lemma {:induction false} EvalMonomial(j: nat, x: int)
    ensures Eval(Monomial(j), x) == Pow(x, j) && Monomial(j)[0] == if j == 0 then 1 else 0
  {
    if j == 0 {
      EvalOne(x);
    } else {
      EvalMonomial(j - 1, x);
      EvalShifted(Monomial(j - 1), x);
    }
  }

  /** The shares of X^j at the given points. */
  function MonomialShares(xs: seq<int>, j: nat): (shares: seq<Share>)
    ensures |shares| == |xs| && forall a :: 0 <= a < |xs| ==> shares[a] == (xs[a], Pow(xs[a], j))
  {
    seq(|xs|, a requires 0 <= a < |xs| => (xs[a], Pow(xs[a], j)))
  }

  /** The gathered exponents are 1, 0, ..., 0 modulo Q. */
  lemma GatheredIsUnit(xs: seq<int>, t: nat, j: nat)
    requires Prime(Q) && j < t <= |xs| && Distinct(xs, Q)
    ensures Cong(Gathered(xs, t, |xs|)[j], if j == 0 then 1 else 0, Q)
  {
    hide Pow, Prime, Eval, Sum, Factor, LagrangeSum, Weight, Solvable;
    var f, shares := Monomial(j), MonomialShares(xs, j);
    assert Points(shares) == xs;
    EvalMonomial(j, 0);
    forall a | 0 <= a < |shares|
      ensures Cong(shares[a].1, Eval(f, shares[a].0), Q) && Cong(Column(xs, j)[a], shares[a].1, Q)
    {
      EvalMonomial(j, xs[a]);
      CongReduce(Pow(xs[a], j), Q);
    }
    ReconstructsSecret(f, shares);
    ReconstructionIsSum(shares, Column(xs, j), |xs|);
  }

  function Unit(t: nat): (e: seq<nat>)
    ensures |e| == t && forall j :: 0 <= j < t ==> e[j] == if j == 0 then 1 else 0
  {
    seq(t, j => if j == 0 then 1 else 0)
  }

  lemma {:induction false} ProductOfUnit(d: seq<int>, e: seq<nat>, n: nat)
    requires 1 <= n <= |d| && n <= |e| && forall j :: 0 <= j < n ==> e[j] == if j == 0 then 1 else 0
    ensures Product(d, e, n) == d[0]
  {
    if n == 1 {
      PowFirst(d[0]);
      assert Product(d, e, 0) == 1;
    } else {
      ProductOfUnit(d, e, n - 1);
    }
  }

  lemma PowFirst(b: int)
    ensures Pow(b, 1) == b
  {
    assert Pow(b, 1) == b * Pow(b, 0);
  }

  // ----- accepted shares make the commitments units -----

  lemma {:induction false} PowNonzero(p: int, b: int, e: nat)
    requires Prime(p) && b % p != 0
    ensures Pow(b, e) % p != 0
  {
    if e == 0 {
      DivModUnique(1, p, 0, 1);
    } else {
      PowNonzero(p, b, e - 1);
      if Pow(b, e) % p == 0 {
        Euclid(p, b, Pow(b, e - 1));
      }
    }
  }

  lemma {:induction false} ProductHasZero(d: seq<int>, e: seq<nat>, n: nat, j: nat, p: int)
    requires 0 < p && j < n <= |d| && n <= |e| && d[j] % p == 0 && 1 <= e[j]
    ensures Product(d, e, n) % p == 0
  {
    var x, y := Product(d, e, n - 1), Pow(d[n - 1], e[n - 1]);
    if j == n - 1 {
      DividesProduct(d[j], Pow(d[j], e[j] - 1), p);
      DividesProduct(y, x, p);
    } else {
      ProductHasZero(d, e, n - 1, j, p);
      DividesProduct(x, y, p);
    }
  }

  lemma SquareZero(c: int, p: int)
    requires 0 < p && c % p == 0
    ensures Pow(c, 2) % p == 0
  {
    PowFirst(c);
    assert Pow(c, 2) == c * Pow(c, 1);
    DividesProduct(c, c, p);
  }

  /** A share that passes leaves no commitment zero that it uses. */
  lemma PassedUnit(share: Share, cs: seq<int>, j: nat)
    requires Prime(P) && Prime(Q) && j < |cs| && Passes(share, cs) && Pow(share.0, j) % Q != 0
    ensures cs[j] % P != 0
  {
    hide Pow, Prime, Passes, Product;
    if cs[j] % P == 0 {
      var y := ReducedValue(share.1);
      PassedSquared(share, cs, y);
      SquareZero(cs[j], P);
      ProductHasZero(Squares(cs), Row(share.0, |cs|), |cs|, j, P);
      PowFirst(G);
      DivModUnique(4, P, 0, 4);
      PowNonzero(P, G, 2);
      PowNonzero(P, Pow(G, 2), y);
    }
  }

  /** Enough passing shares at distinct points leave none zero at all: at most
      one of the points is a multiple of Q. */
  lemma CommitmentsAreUnits(shares: seq<Share>, cs: seq<int>, j: nat)
    requires Prime(P) && Prime(Q) && j < |cs| <= |shares| && Distinct(Points(shares), Q)
    requires forall a :: 0 <= a < |shares| ==> Passes(shares[a], cs)
    ensures cs[j] % P != 0
  {
    hide Pow, Prime, Passes;
    var xs := Points(shares);
    if j == 0 {
      PowZero(xs[0]);
      DivModUnique(1, Q, 0, 1);
      PassedUnit(shares[0], cs, 0);
    } else {
      var a := if xs[0] % Q != 0 then 0 else 1;
      assert xs[a] % Q != 0;
      PowNonzero(Q, xs[a], j);
      PassedUnit(shares[a], cs, j);
    }
  }

  /** The square of a unit has period Q, because P is 2 Q + 1. */
  lemma SquarePeriod(c: int)
    requires Prime(P) && c % P != 0
    ensures Cong(Pow(Pow(c, 2), Q), 1, P)
  {
    hide Pow, Prime;
    var b := c % P;
    CongReduce(c, P);
    CongReduce(b, P);
    FermatInverse(P, b);
    PowStep(b, P - 2);
    PowCong(b, c, P - 1, P);
    PowMul(c, 2, Q);
  }

  // ----- the theorem -----

  /** Whatever the commitments are, the reconstructed value is the logarithm of
      the square of the first one, to the base of the squared generator. */
  lemma ReconstructionOpens(shares: seq<Share>, cs: seq<int>) returns (s: nat)
    requires Prime(P) && Prime(Q) && 1 <= |cs| <= |shares| && Distinct(Points(shares), Q)
    requires forall a :: 0 <= a < |shares| ==> Passes(shares[a], cs)
    ensures Cong(s, LagrangeSum(Points(shares), WeightsOf(shares), 0, |shares|), Q)
    ensures Cong(Pow(Pow(G, 2), s), Pow(cs[0], 2), P)
  {
    hide Pow, Prime, Passes, Product, Sum, Factor, LagrangeSum, Weight, Distinct, Monomial;
    var xs, t, d := Points(shares), |cs|, Squares(cs);
    var e := Gathered(xs, t, |xs|);
    PassedGathered(shares, cs, |shares|);
    forall j | 0 <= j < t ensures Cong(Pow(d[j], Q), 1, P) && Cong(e[j], Unit(t)[j], Q) {
      CommitmentsAreUnits(shares, cs, j);
      SquarePeriod(cs[j]);
      GatheredIsUnit(xs, t, j);
    }
    ProductPeriod(d, e, Unit(t), Q, P, t);
    ProductOfUnit(d, Unit(t), t);
    ReconstructionIsSum(shares, Values(shares), |shares|);
    s := Sum(Factors(xs), Values(shares), |shares|);
  }

  lemma SquaredGeneratorHasOrder()
    requires Prime(P) && Prime(Q)
    ensures Cong(Pow(Pow(G, 2), Q), 1, P) && !Cong(Pow(G, 2), 1, P)
  {
    hide Pow, Prime;
    FourHasOrder(P, Q);
    SwapPowers(G, 2, Q);
    PowCong(Pow(G, Q), 1, 2, P);
    PowOne(2);
    PowFirst(G);
    PowStep(G, 1);
    DivModUnique(16, P, 0, 16);
    DivModUnique(1, P, 0, 1);
  }

  /** Verifiability against any dealer: two sets of enough shares at distinct
      points that all pass the check against the same commitments, whatever
      these are, reconstruct to the same secret. */
  lemma AcceptedSharesAgree(cs: seq<int>, a: seq<Share>, b: seq<Share>)
    requires Prime(P) && Prime(Q) && 1 <= |cs| <= |a| && |cs| <= |b|
    requires Distinct(Points(a), Q) && Distinct(Points(b), Q)
    requires forall k :: 0 <= k < |a| ==> Passes(a[k], cs)
    requires forall k :: 0 <= k < |b| ==> Passes(b[k], cs)
    ensures Solvable(a) && Solvable(b)
    ensures LagrangeSum(Points(a), WeightsOf(a), 0, |a|) % Q == LagrangeSum(Points(b), WeightsOf(b), 0, |b|) % Q
  {
    hide Pow, Prime, Passes, LagrangeSum, Weight, Distinct, Solvable;
    SolvableIff(a);
    SolvableIff(b);
    var s := ReconstructionOpens(a, cs);
    var r := ReconstructionOpens(b, cs);
    SquaredGeneratorHasOrder();
    PowersAgree(Pow(G, 2), Q, s, r, P);
  }
}
