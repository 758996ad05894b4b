/** What the dealer hands out: the values of the polynomial with the given
    coefficients, and fewer shares than the threshold fit every secret. */
module FeldmanDealing {
  import opened ModArith
  import opened PowersOfTwo
  import opened PrimeField
  import opened FeldmanPoly
  import opened Feldman

  /** The modulus, the order and the generator. */
  lemma Parameters()
    ensures P == Pow2(255) + 196479 && P == 2 * Q + 1 && G == 4
  {
    hide Pow2;
    Pow2Of64();
    Pow2Add(64, 64);
    Pow2Add(128, 64);
    Pow2One();
    Pow2Add(1, 1);
    Pow2Add(2, 1);
    Pow2Small();
    Pow2Add(3, 8);
    Pow2Add(11, 8);
    Pow2Add(19, 8);
    Pow2Add(27, 8);
    Pow2Add(35, 8);
    Pow2Add(43, 8);
    Pow2Add(51, 8);
    Pow2Add(59, 2);
    Pow2Add(61, 2);
    Pow2Add(192, 63);
  }

  /** c[0] + c[1] x + ... + c[n - 1] x^(n - 1). */
  function PowerSum(c: Coefficients, x: int, n: nat): int
    requires n <= |c|
  {
    if n == 0 then 0 else PowerSum(c, x, n - 1) + c[n - 1] * Pow(x, n - 1)
  }

  lemma {:induction false} EvalIsPowerSum(c: Coefficients, x: int, n: nat)
    requires n <= |c|
    ensures Eval(c[..n], x) == PowerSum(c, x, n)
  {
    hide Pow;
    if n == 0 {
      EmptyPolynomial(x);
      assert c[..0] == [];
    } else {
      EvalIsPowerSum(c, x, n - 1);
      EvalSnoc(c[..n - 1], c[n - 1], x);
      assert c[..n] == c[..n - 1] + [c[n - 1]];
    }
  }

  lemma {:induction false} PowerSumCong(c: Coefficients, e: Coefficients, x: int, n: nat)
    requires n <= |c| && n <= |e| && forall j :: 0 <= j < n ==> Cong(c[j], e[j], Q)
    ensures Cong(PowerSum(c, x, n), PowerSum(e, x, n), Q)
  {
    hide Pow;
    if n != 0 {
      PowerSumCong(c, e, x, n - 1);
      CongMul(c[n - 1], e[n - 1], Pow(x, n - 1), Pow(x, n - 1), Q);
      CongAdd(PowerSum(c, x, n - 1), PowerSum(e, x, n - 1), c[n - 1] * Pow(x, n - 1), e[n - 1] * Pow(x, n - 1), Q);
    }
  }

  /** Congruent coefficients have congruent values. */
  lemma EvalCong(c: Coefficients, e: Coefficients, x: int)
    requires |c| == |e| && forall j :: 0 <= j < |c| ==> Cong(c[j], e[j], Q)
    ensures Cong(Eval(c, x), Eval(e, x), Q)
  {
    hide Eval, PowerSum;
    EvalIsPowerSum(c, x, |c|);
    EvalIsPowerSum(e, x, |e|);
    assert c[..|c|] == c && e[..|e|] == e;
    PowerSumCong(c, e, x, |c|);
  }

  /** Coefficient by coefficient: the secret, then t - 1 of the given ones. */
  lemma DealtCoefficients(secret: int, t: int, rand: seq<int>)
    requires 1 <= t <= |rand| + 1
    ensures var f := DealCoefficients(secret, t, rand);
            |f| == t && f[0] == secret % Q && forall j :: 1 <= j < t ==> f[j] == rand[j - 1] % Q
  {
  }

  /** Share k is the pair of k + 1 and the sum of secret and rand[j] (k + 1)^(j + 1). */
  lemma DealtShare(secret: int, t: int, rand: seq<int>, n: nat, k: nat)
    requires 1 <= t <= |rand| + 1 && k < n
    ensures |DealShares(DealCoefficients(secret, t, rand), n)| == n
    ensures DealShares(DealCoefficients(secret, t, rand), n)[k]
         == (k + 1, PowerSum([secret] + rand, k + 1, t) % Q)
  {
    hide PowerSum, Eval;
    var f, c := DealCoefficients(secret, t, rand), ([secret] + rand)[..t];
    forall j | 0 <= j < t ensures Cong(f[j], c[j], Q) {
      CongReduce(c[j], Q);
    }
    EvalCong(f, c, k + 1);
    EvalIsPowerSum([secret] + rand, k + 1, t);
  }

  /** Commitment j is four to the power of coefficient j. */
  lemma DealtCommitment(secret: int, t: int, rand: seq<int>, j: nat)
    requires 1 <= t <= |rand| + 1 && j < t
    ensures Commitments(DealCoefficients(secret, t, rand), 4, P)[j]
         == Pow(4, (if j == 0 then secret else rand[j - 1]) % Q) % P
  {
    hide Pow;
    CongReduce(secret, Q);
    DealtCoefficients(secret, t, rand);
  }

  // ----- hiding -----

  /** The points of the chosen shares. */
  function PointsOf(chosen: seq<nat>): (xs: seq<int>)
    ensures |xs| == |chosen| && forall a :: 0 <= a < |xs| ==> xs[a] == chosen[a] + 1
  {
    seq(|chosen|, a requires 0 <= a < |chosen| => chosen[a] + 1)
  }

  /** The product over all points vanishes at each of them. */
  lemma {:induction false} VanishesAtPoints(xs: seq<int>, c: nat, n: nat)
    requires c < n <= |xs|
    ensures Differences(xs, xs[c], |xs|, n) == 0
    decreases n
  {
    if c == n - 1 {
      assert Differences(xs, xs[c], |xs|, n - 1) * 0 == 0;
    } else {
      VanishesAtPoints(xs, c, n - 1);
      assert 0 * (xs[c] - xs[n - 1]) == 0;
    }
  }

  /** And is invertible at zero when no point is. */
  lemma {:induction false} InvertibleAtZero(xs: seq<int>, n: nat)
    requires Prime(Q) && n <= |xs| && forall a :: 0 <= a < |xs| ==> 0 < xs[a] < Q
    ensures Differences(xs, 0, |xs|, n) % Q != 0
  {
    hide Prime;
    if n == 0 {
      DivModUnique(1, Q, 0, 1);
    } else {
      InvertibleAtZero(xs, n - 1);
      var x := xs[n - 1];
      DivModUnique(0 - x, Q, -1, Q - x);
      if (Differences(xs, 0, |xs|, n - 1) * (0 - x)) % Q == 0 {
        Euclid(Q, Differences(xs, 0, |xs|, n - 1), 0 - x);
      }
    }
  }

  /** A polynomial with the value `to` at zero and those of f at the points. */
  function Bent(f: Coefficients, xs: seq<int>, to: int): (g: Coefficients)
    requires |f| == |xs| + 1 && Prime(Q)
    requires forall a :: 0 <= a < |xs| ==> 0 < xs[a] < Q
    ensures |g| == |f|
  {
    var d := Differences(xs, 0, |xs|, |xs|);
    InvertibleAtZero(xs, |xs|);
    InvertibleIff(d, Q);
    Plus(f, Times(Basis(xs, |xs|, |xs|), (to - f[0]) * Inverse(d, Q)))
  }

  lemma BentValues(f: Coefficients, xs: seq<int>, to: int)
    requires |f| == |xs| + 1 && Prime(Q)
    requires forall a :: 0 <= a < |xs| ==> 0 < xs[a] < Q
    ensures Cong(Bent(f, xs, to)[0], to, Q)
    ensures forall a :: 0 <= a < |xs| ==> Eval(Bent(f, xs, to), xs[a]) == Eval(f, xs[a])
  {
    hide Prime, Eval, Plus, Times, Basis, Differences, HasInverse, Inverse;
    var n := |xs|;
    var d := Differences(xs, 0, n, n);
    InvertibleAtZero(xs, n);
    InvertibleIff(d, Q);
    var inv := Inverse(d, Q);
    var k := (to - f[0]) * inv;
    var h := Times(Basis(xs, n, n), k);
    var g := Bent(f, xs, to);
    forall a | 0 <= a < n ensures Eval(g, xs[a]) == Eval(f, xs[a]) {
      EvalPlus(f, h, xs[a]);
      EvalTimes(Basis(xs, n, n), k, xs[a]);
      EvalBasis(xs, xs[a], n, n);
      VanishesAtPoints(xs, a, n);
      assert k * 0 == 0;
    }
    EvalPlus(f, h, 0);
    EvalTimes(Basis(xs, n, n), k, 0);
    EvalBasis(xs, 0, n, n);
    AtZero(f);
    AtZero(g);
    Associate(to - f[0], inv, d);
    assert inv * d == d * inv;
    CongMul(to - f[0], to - f[0], d * inv, 1, Q);
    CongAdd(f[0], f[0], k * d, to - f[0], Q);
  }

  lemma AtZero(f: Coefficients)
    requires f != []
    ensures Eval(f, 0) == f[0]
  {
    assert 0 * Eval(f[1..], 0) == 0;
  }

  /** Any t - 1 dealt shares are, for every other secret, shares of a dealing of
      that secret too: fewer than t shares say nothing about it. */
  lemma FewSharesHide(secret: int, t: int, rand: seq<int>, n: nat, chosen: seq<nat>, other: int) returns (rand': seq<int>)
    requires Prime(Q) && 1 <= t <= |rand| + 1 && n < Q && |chosen| == t - 1
    requires forall a :: 0 <= a < |chosen| ==> chosen[a] < n
    ensures |rand'| == t - 1
    ensures forall a :: 0 <= a < |chosen| ==>
      DealShares(DealCoefficients(other, t, rand'), n)[chosen[a]] == DealShares(DealCoefficients(secret, t, rand), n)[chosen[a]]
  {
    hide Prime, Eval, DealCoefficients;
    var xs, f := PointsOf(chosen), DealCoefficients(secret, t, rand);
    var g := Bent(f, xs, other);
    BentValues(f, xs, other);
    rand' := g[1..];
    var f' := DealCoefficients(other, t, rand');
    DealtCoefficients(other, t, rand');
    forall j | 0 <= j < t ensures Cong(f'[j], g[j], Q) {
      CongReduce(other, Q);
      CongReduce(g[j], Q);
    }
    forall a | 0 <= a < |chosen| ensures DealShares(f', n)[chosen[a]] == DealShares(f, n)[chosen[a]] {
      EvalCong(f', g, xs[a]);
    }
  }
}
