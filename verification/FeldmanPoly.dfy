/** Polynomials over the integers modulo a prime: a nonzero polynomial has
    fewer roots than coefficients, and Lagrange's formula recovers the value of
    a polynomial anywhere from its values at enough points. */
module FeldmanPoly {
  import opened ModArith
  import opened PrimeField

  type Coefficients = seq<int>

  /** f(x), coefficients from the constant term up. */
  function Eval(f: Coefficients, x: int): int {
    if f == [] then 0 else f[0] + x * Eval(f[1..], x)
  }

  lemma EmptyPolynomial(z: int)
    ensures Eval([], z) == 0
  {
  }

  // ----- roots -----

  /** The quotient of f by X - c. */
  function Quotient(f: Coefficients, c: int): (q: Coefficients)
    ensures |q| == if f == [] then 0 else |f| - 1
  {
    if |f| <= 1 then [] else [Eval(f[1..], c)] + Quotient(f[1..], c)
  }

  /** f(z) = f(c) + (z - c) q(z). */
  lemma {:induction false} Division(f: Coefficients, c: int, z: int)
    requires f != []
    ensures Eval(f, z) == Eval(f, c) + (z - c) * Eval(Quotient(f, c), z)
  {
    var g, q := f[1..], Quotient(f, c);
    if g == [] {
      assert q == [];
      assert (z - c) * 0 == 0 && z * 0 == 0 && c * 0 == 0;
    } else {
      Division(g, c, z);
      var e, r := Eval(g, c), Eval(Quotient(g, c), z);
      assert q[1..] == Quotient(g, c);
      assert Eval(q, z) == e + z * r;
      DivisionStep(z, c, e, r);
    }
  }

  lemma DivisionStep(z: int, c: int, e: int, r: int)
    ensures z * (e + (z - c) * r) == c * e + (z - c) * (e + z * r)
  {
    Distribute(e, (z - c) * r, z);
    Distribute(e, z * r, z - c);
    Distribute(z, c, e);
    Associate(z, z - c, r);
  }

  predicate Distinct(xs: seq<int>, p: int)
    requires 0 < p
  {
    forall i, j :: 0 <= i < j < |xs| ==> !Cong(xs[i], xs[j], p)
  }

  /** A polynomial with at least as many roots as coefficients is zero
      everywhere. */
  lemma {:induction false} Vanishes(p: int, f: Coefficients, xs: seq<int>, z: int)
    requires Prime(p) && |f| <= |xs| && Distinct(xs, p)
    requires forall i :: 0 <= i < |xs| ==> Cong(Eval(f, xs[i]), 0, p)
    ensures Cong(Eval(f, z), 0, p)
    decreases |f|
  {
    if f != [] {
      var c, ys, q := xs[0], xs[1..], Quotient(f, xs[0]);
      forall i | 0 <= i < |ys| ensures Cong(Eval(q, ys[i]), 0, p) {
        assert ys[i] == xs[i + 1];
        assert !Cong(c, ys[i], p);
        RootOfQuotient(p, f, c, ys[i]);
      }
      assert Distinct(ys, p) by {
        forall i, j | 0 <= i < j < |ys| ensures !Cong(ys[i], ys[j], p) {
          assert ys[i] == xs[i + 1] && ys[j] == xs[j + 1];
        }
      }
      Vanishes(p, q, ys, z);
      Division(f, c, z);
      CongMul(z - c, z - c, Eval(q, z), 0, p);
      CongAdd(Eval(f, c), 0, (z - c) * Eval(q, z), 0, p);
    }
  }

  lemma RootOfQuotient(p: int, f: Coefficients, c: int, x: int)
    requires Prime(p) && f != [] && !Cong(c, x, p)
    requires Cong(Eval(f, c), 0, p) && Cong(Eval(f, x), 0, p)
    ensures Cong(Eval(Quotient(f, c), x), 0, p)
  {
    Division(f, c, x);
    var d, e := x - c, Eval(Quotient(f, c), x);
    CongSub(Eval(f, x), 0, Eval(f, c), 0, p);
    if d % p == 0 {
      CongAdd(d, 0, c, c, p);
    }
    Euclid(p, d, e);
  }

  // ----- Lagrange's formula -----

  function Plus(f: Coefficients, g: Coefficients): (h: Coefficients)
    ensures |h| == if |f| < |g| then |g| else |f|
  {
    if f == [] then g else if g == [] then f
    else [f[0] + g[0]] + Plus(f[1..], g[1..])
  }

  function Times(f: Coefficients, k: int): (h: Coefficients)
    ensures |h| == |f|
  {
    if f == [] then [] else [k * f[0]] + Times(f[1..], k)
  }

  lemma {:induction false} EvalPlus(f: Coefficients, g: Coefficients, z: int)
    ensures Eval(Plus(f, g), z) == Eval(f, z) + Eval(g, z)
  {
    if f != [] && g != [] {
      EvalPlus(f[1..], g[1..], z);
      var h := Plus(f, g);
      assert h[0] == f[0] + g[0] && h[1..] == Plus(f[1..], g[1..]);
      Distribute(Eval(f[1..], z), Eval(g[1..], z), z);
    }
  }

  lemma {:induction false} EvalTimes(f: Coefficients, k: int, z: int)
    ensures Eval(Times(f, k), z) == k * Eval(f, z)
  {
    if f == [] {
      assert k * 0 == 0;
    } else {
      EvalTimes(f[1..], k, z);
      var h := Times(f, k);
      assert h[0] == k * f[0] && h[1..] == Times(f[1..], k);
      Distribute(f[0], z * Eval(f[1..], z), k);
      Associate(k, z, Eval(f[1..], z));
      Associate(z, k, Eval(f[1..], z));
    }
  }

  /** (z - xs[0]) ... (z - xs[n - 1]) without the factor of index a. */
  function Differences(xs: seq<int>, z: int, a: nat, n: nat): int
    requires n <= |xs|
  {
    if n == 0 then 1
    else if n - 1 == a then Differences(xs, z, a, n - 1)
    else Differences(xs, z, a, n - 1) * (z - xs[n - 1])
  }

  /** The coefficients of the product that `Differences` evaluates. */
  function Basis(xs: seq<int>, a: nat, n: nat): (h: Coefficients)
    requires n <= |xs|
    ensures |h| == if a < n then n else n + 1
  {
    if n == 0 then [1]
    else if n - 1 == a then Basis(xs, a, n - 1)
    else var h := Basis(xs, a, n - 1); Plus([0] + h, Times(h, 0 - xs[n - 1]))
  }

  lemma EvalOne(z: int)
    ensures Eval([1], z) == 1
  {
    assert Eval([1], z) == 1 + z * Eval([], z);
    assert z * 0 == 0;
  }

  lemma EvalShifted(h: Coefficients, z: int)
    ensures Eval([0] + h, z) == z * Eval(h, z)
  {
    assert ([0] + h)[1..] == h;
  }

  lemma TimesDifference(z: int, x: int, e: int)
    ensures z * e + (0 - x) * e == e * (z - x)
  {
    Distribute(z, x, e);
  }

  lemma {:induction false} EvalBasis(xs: seq<int>, z: int, a: nat, n: nat)
    requires n <= |xs|
    ensures Eval(Basis(xs, a, n), z) == Differences(xs, z, a, n)
    decreases n
  {
    hide Eval, Plus, Times;
    if n == 0 {
      EvalOne(z);
    } else {
      EvalBasis(xs, z, a, n - 1);
      if n - 1 != a {
        var h, x := Basis(xs, a, n - 1), xs[n - 1];
        EvalPlus([0] + h, Times(h, 0 - x), z);
        EvalTimes(h, 0 - x, z);
        EvalShifted(h, z);
        TimesDifference(z, x, Eval(h, z));
      }
    }
  }

  lemma {:induction false} DifferencesVanish(xs: seq<int>, a: nat, c: nat, n: nat)
    requires c < n <= |xs| && a != c
    ensures Differences(xs, xs[c], a, n) == 0
    decreases n
  {
    if c == n - 1 {
      assert Differences(xs, xs[c], a, n - 1) * 0 == 0;
    } else {
      DifferencesVanish(xs, a, c, n - 1);
      assert 0 * (xs[c] - xs[n - 1]) == 0;
    }
  }

  /** The denominators are invertible when the points are distinct. */
  lemma {:induction false} DifferencesInvertible(p: int, xs: seq<int>, a: nat, n: nat)
    requires Prime(p) && n <= |xs| && a < |xs| && Distinct(xs, p)
    ensures !Cong(Differences(xs, xs[a], a, n), 0, p)
    decreases n
  {
    if n == 0 {
      DivModUnique(1, p, 0, 1);
      DivModUnique(0, p, 0, 0);
    } else {
      DifferencesInvertible(p, xs, a, n - 1);
      if n - 1 != a {
        var d, e := Differences(xs, xs[a], a, n - 1), xs[a] - xs[n - 1];
        if Cong(e, 0, p) {
          CongAdd(e, 0, xs[n - 1], xs[n - 1], p);
        }
        if Cong(d * e, 0, p) {
          Euclid(p, d, e);
        }
      }
    }
  }

  /** Two congruent points make one of the denominators zero. */
  lemma {:induction false} DifferencesCollide(p: int, xs: seq<int>, a: nat, b: nat, n: nat)
    requires 0 < p && b < n <= |xs| && a < |xs| && a != b && Cong(xs[a], xs[b], p)
    ensures Cong(Differences(xs, xs[a], a, n), 0, p)
    decreases n
  {
    var d, e := Differences(xs, xs[a], a, n - 1), xs[a] - xs[n - 1];
    if b == n - 1 {
      CongSub(xs[a], xs[b], xs[b], xs[b], p);
      CongMul(d, d, e, 0, p);
    } else {
      DifferencesCollide(p, xs, a, b, n - 1);
      if n - 1 != a {
        CongMul(d, 0, e, e, p);
      }
    }
  }

  /** w[0] * (product without x[0]) + ... + w[n - 1] * (product without x[n - 1]). */
  function LagrangeSum(xs: seq<int>, ws: seq<int>, z: int, n: nat): int
    requires n <= |xs| && |ws| == |xs|
  {
    if n == 0 then 0
    else LagrangeSum(xs, ws, z, n - 1) + ws[n - 1] * Differences(xs, z, n - 1, |xs|)
  }

  /** The coefficients of `LagrangeSum`. */
  function Interpolant(xs: seq<int>, ws: seq<int>, n: nat): (h: Coefficients)
    requires n <= |xs| && |ws| == |xs|
    ensures |h| == if n == 0 then 0 else |xs|
  {
    if n == 0 then []
    else Plus(Interpolant(xs, ws, n - 1), Times(Basis(xs, n - 1, |xs|), ws[n - 1]))
  }

  lemma {:induction false} EvalInterpolant(xs: seq<int>, ws: seq<int>, z: int, n: nat)
    requires n <= |xs| && |ws| == |xs|
    ensures Eval(Interpolant(xs, ws, n), z) == LagrangeSum(xs, ws, z, n)
    decreases n
  {
    hide Eval, Plus, Times, Basis, Differences;
    if n == 0 {
      assert Eval([], z) == 0 by { EmptyPolynomial(z); }
    } else {
      EvalInterpolant(xs, ws, z, n - 1);
      EvalPlus(Interpolant(xs, ws, n - 1), Times(Basis(xs, n - 1, |xs|), ws[n - 1]), z);
      EvalTimes(Basis(xs, n - 1, |xs|), ws[n - 1], z);
      EvalBasis(xs, z, n - 1, |xs|);
    }
  }

  /** At x[c] only the term of index c survives. */
  lemma {:induction false} SumAtPoint(xs: seq<int>, ws: seq<int>, c: nat, n: nat)
    requires n <= |xs| && |ws| == |xs| && c < |xs|
    ensures LagrangeSum(xs, ws, xs[c], n)
         == if c < n then ws[c] * Differences(xs, xs[c], c, |xs|) else 0
    decreases n
  {
    if n != 0 {
      SumAtPoint(xs, ws, c, n - 1);
      if n - 1 != c {
        DifferencesVanish(xs, n - 1, c, |xs|);
        assert ws[n - 1] * 0 == 0;
      }
    }
  }

  /** The weights w[a] are f(x[a]) over the a-th denominator. */
  ghost predicate Weights(p: int, f: Coefficients, xs: seq<int>, ws: seq<int>)
    requires 0 < p && |ws| == |xs|
  {
    forall a :: 0 <= a < |xs| ==>
      Cong(ws[a] * Differences(xs, xs[a], a, |xs|), Eval(f, xs[a]), p)
  }

  /** Lagrange interpolation: f has no more coefficients than there are points,
      so the sum gives f at every z. */
  lemma Interpolation(p: int, f: Coefficients, xs: seq<int>, ws: seq<int>, z: int)
    requires Prime(p) && |f| <= |xs| == |ws| && Distinct(xs, p) && Weights(p, f, xs, ws)
    ensures Cong(LagrangeSum(xs, ws, z, |xs|), Eval(f, z), p)
  {
    hide Eval, Interpolant, LagrangeSum, Differences, Plus, Times, Weights, Distinct;
    var h := Interpolant(xs, ws, |xs|);
    var g := Plus(h, Times(f, -1));
    forall i | 0 <= i < |xs| ensures Cong(Eval(g, xs[i]), 0, p) {
      AgreesAtPoint(p, f, xs, ws, i);
    }
    Vanishes(p, g, xs, z);
    EvalDifference(h, f, z);
    EvalInterpolant(xs, ws, z, |xs|);
    CongAdd(Eval(g, z), 0, Eval(f, z), Eval(f, z), p) by {
      CongSame(Eval(f, z), p);
    }
  }

  lemma CongSame(a: int, m: int)
    requires 0 < m
    ensures Cong(a, a, m)
  {
  }

  lemma AgreesAtPoint(p: int, f: Coefficients, xs: seq<int>, ws: seq<int>, i: nat)
    requires 0 < p && |ws| == |xs| && Weights(p, f, xs, ws) && i < |xs|
    ensures Cong(Eval(Plus(Interpolant(xs, ws, |xs|), Times(f, -1)), xs[i]), 0, p)
  {
    hide Eval, Interpolant, LagrangeSum, Differences, Plus, Times;
    var h, x := Interpolant(xs, ws, |xs|), xs[i];
    EvalDifference(h, f, x);
    EvalInterpolant(xs, ws, x, |xs|);
    SumAtPoint(xs, ws, i, |xs|);
    CongSub(Eval(h, x), Eval(f, x), Eval(f, x), Eval(f, x), p);
  }

  lemma EvalDifference(h: Coefficients, f: Coefficients, z: int)
    ensures Eval(Plus(h, Times(f, -1)), z) == Eval(h, z) - Eval(f, z)
  {
    EvalPlus(h, Times(f, -1), z);
    EvalTimes(f, -1, z);
  }
}
