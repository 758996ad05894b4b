/** Feldman verifiable secret sharing over plain integers: a dealer shares a
    secret as values of a polynomial modulo q and commits to its coefficients
    in a group of order q modulo p. */
module Feldman {
  import opened ModArith
  import opened PrimeField
  import opened FeldmanPoly

  const P: int := 0x800000000000000000000000000000000000000000000000000000000002ff7f
  const Q: int := (P - 1) / 2
  const G: int := 4

  type Share = (int, int)

  /** The answer of a reconstruction; `NotInvertible` is the ValueError that
      the built-in modular inverse raises. */
  datatype Result = Ok(value: int) | NotInvertible

  // ----- evaluating and dealing -----

  /** Horner's rule, from the leading coefficient down. */
  method Poly(coeffs: Coefficients, x: int) returns (r: int)
    ensures r == Eval(coeffs, x) % Q
  {
    r := 0;
    var i := |coeffs|;
    assert coeffs[i..] == [];
    while i > 0
      invariant 0 <= i <= |coeffs|
      invariant r == Eval(coeffs[i..], x) % Q
    {
      i := i - 1;
      assert coeffs[i..][1..] == coeffs[i + 1..];
      HornerStep(r, coeffs[i], x, coeffs[i + 1..]);
      r := (r * x + coeffs[i]) % Q;
    }
    assert coeffs[0..] == coeffs;
  }

  lemma HornerStep(r: int, c: int, x: int, f: Coefficients)
    requires r == Eval(f, x) % Q
    ensures (r * x + c) % Q == (c + x * Eval(f, x)) % Q
  {
    var e := Eval(f, x);
    CongReduce(e, Q);
    CongMul(r, e, x, x, Q);
    CongAdd(r * x, e * x, c, c, Q);
  }

  /** The slice s[:k], where a negative k counts from the end. */
  function Prefix(s: seq<int>, k: int): seq<int> {
    if k >= |s| then s else if k >= 0 then s[..k] else if |s| + k >= 0 then s[..|s| + k] else []
  }

  /** The dealer's polynomial; its constant term is the secret. */
  function DealCoefficients(secret: int, t: int, rand: seq<int>): (f: Coefficients)
    ensures f != [] && f[0] == secret % Q
    ensures 1 <= t <= |rand| + 1 ==> |f| == t
    ensures forall j :: 0 <= j < |f| ==> 0 <= f[j] < Q
  {
    var rest := Prefix(rand, t - 1);
    [secret % Q] + seq(|rest|, j requires 0 <= j < |rest| => rest[j] % Q)
  }

  function DealShares(f: Coefficients, n: int): seq<Share> {
    seq(if n < 0 then 0 else n, k => (k + 1, Eval(f, k + 1) % Q))
  }

  function Commitments(f: Coefficients, g: int, p: int): (cs: seq<int>)
    requires 0 < p && forall j :: 0 <= j < |f| ==> 0 <= f[j]
    ensures |cs| == |f|
  {
    seq(|f|, j requires 0 <= j < |f| => Pow(g, f[j]) % p)
  }

  // ----- inverses -----

  predicate HasInverse(a: int, m: int)
    requires 0 < m
  {
    exists x | 0 <= x < m :: Cong(a * x, 1, m)
  }

  /** The built-in pow(a, -1, m): the one inverse below m. */
  function Inverse(a: int, m: int): (r: int)
    requires 0 < m && HasInverse(a, m)
    ensures 0 <= r < m && Cong(a * r, 1, m)
  {
    assert forall x, y | 0 <= x < m && 0 <= y < m && Cong(a * x, 1, m) && Cong(a * y, 1, m) :: x == y by {
      forall x, y | 0 <= x < m && 0 <= y < m && Cong(a * x, 1, m) && Cong(a * y, 1, m) ensures x == y {
        InverseUnique(a, x, y, m);
        DivModUnique(x, m, 0, x);
        DivModUnique(y, m, 0, y);
      }
    }
    var r :| 0 <= r < m && Cong(a * r, 1, m);
    r
  }

  // ----- verifying a share -----

  /** The product of C_j^(i^j mod q) over j < n. */
  function Combined(commits: seq<int>, i: int, q: int, n: nat): int
    requires n <= |commits| && 0 < q
  {
    if n == 0 then 1
    else Combined(commits, i, q, n - 1) * Pow(commits[n - 1], Pow(i, n - 1) % q)
  }

  lemma GeneratorInvertible()
    ensures HasInverse(G, P)
  {
    var x := (P + 1) / 4;
    DivModUnique(4 * x, P, 1, 1);
    DivModUnique(1, P, 0, 1);
    assert 0 <= x < P && Cong(G * x, 1, P);
  }

  /** The built-in pow(G, y, P) before reduction; a negative y asks for a power
      of the inverse. */
  function SignedPow(y: int): int {
    if y >= 0 then Pow(G, y) else (GeneratorInvertible(); Pow(Inverse(G, P), -y))
  }

  /** The equation that a share is checked against. */
  predicate Passes(share: Share, commits: seq<int>) {
    Cong(SignedPow(share.1), Combined(commits, share.0, Q, |commits|), P)
  }

  method VerifyShare(share: Share, commits: seq<int>) returns (ok: bool)
    ensures ok == Passes(share, commits)
  {
    var lhs := SignedPow(share.1) % P;
    var rhs := 1;
    DivModUnique(1, P, 0, 1);
    for j := 0 to |commits|
      invariant rhs == Combined(commits, share.0, Q, j) % P
    {
      ProductStep(rhs, Combined(commits, share.0, Q, j), Pow(commits[j], Pow(share.0, j) % Q), P);
      rhs := (rhs * (Pow(commits[j], Pow(share.0, j) % Q) % P)) % P;
    }
    ok := lhs == rhs;
  }

  lemma ProductStep(r: int, a: int, b: int, m: int)
    requires 0 < m && r == a % m
    ensures (r * (b % m)) % m == (a * b) % m
  {
    CongReduce(a, m);
    CongReduce(b, m);
    CongMul(r, a, b % m, b, m);
  }

  /** a_0 (1 mod q) + a_1 (i mod q) + ... + a_(n-1) (i^(n-1) mod q). */
  function Exponent(f: Coefficients, i: int, q: int, n: nat): (e: nat)
    requires n <= |f| && 0 < q && forall j :: 0 <= j < |f| ==> 0 <= f[j]
  {
    if n == 0 then 0
    else
      assert 0 <= f[n - 1] * (Pow(i, n - 1) % q) by { NonNegative(f[n - 1], Pow(i, n - 1) % q); }
      Exponent(f, i, q, n - 1) + f[n - 1] * (Pow(i, n - 1) % q)
  }

  lemma {:induction false} EvalSnoc(f: Coefficients, a: int, x: int)
    ensures Eval(f + [a], x) == Eval(f, x) + a * Pow(x, |f|)
  {
    if f == [] {
      EmptyPolynomial(x);
      assert ([a])[1..] == [];
      assert Eval([a], x) == a + x * Eval([], x);
      assert x * 0 == 0;
      assert f + [a] == [a];
    } else {
      EvalSnoc(f[1..], a, x);
      assert (f + [a])[1..] == f[1..] + [a];
      Distribute(Eval(f[1..], x), a * Pow(x, |f| - 1), x);
      Associate(x, a, Pow(x, |f| - 1));
      Associate(a, x, Pow(x, |f| - 1));
    }
  }

  /** Reducing the exponents i^j modulo q does not change the sum modulo q. */
  lemma {:induction false} ExponentIsValue(f: Coefficients, i: int, q: int, n: nat)
    requires n <= |f| && 0 < q && forall j :: 0 <= j < |f| ==> 0 <= f[j]
    ensures Cong(Exponent(f, i, q, n), Eval(f[..n], i), q)
    decreases n
  {
    if n == 0 {
      EmptyPolynomial(i);
      assert f[..0] == [];
    } else {
      var a, x := f[n - 1], Pow(i, n - 1);
      ExponentIsValue(f, i, q, n - 1);
      EvalSnoc(f[..n - 1], a, i);
      assert f[..n] == f[..n - 1] + [a];
      CongReduce(x, q);
      CongMul(a, a, x % q, x, q);
      CongAdd(Exponent(f, i, q, n - 1), Eval(f[..n - 1], i), a * (x % q), a * x, q);
    }
  }

  /** The combined commitments open to that sum. */
  lemma {:induction false} CombinedIsPower(f: Coefficients, g: int, p: int, i: int, q: int, n: nat)
    requires n <= |f| && 0 < q && 0 < p && forall j :: 0 <= j < |f| ==> 0 <= f[j]
    ensures Cong(Combined(Commitments(f, g, p), i, q, n), Pow(g, Exponent(f, i, q, n)), p)
    decreases n
  {
    if n != 0 {
      var cs := Commitments(f, g, p);
      var a: nat, e: nat := f[n - 1], Pow(i, n - 1) % q;
      var before := Exponent(f, i, q, n - 1);
      CombinedIsPower(f, g, p, i, q, n - 1);
      CongReduce(Pow(g, a), p);
      PowCong(cs[n - 1], Pow(g, a), e, p);
      PowMul(g, a, e);
      NonNegative(a, e);
      PowAdd(g, before, a * e);
      CongMul(Combined(cs, i, q, n - 1), Pow(g, before), Pow(cs[n - 1], e), Pow(g, a * e), p);
    }
  }

  /** `g` has prime order `q` modulo `p`. */
  predicate Group(p: int, q: int, g: int) {
    0 < p && Prime(q) && Cong(Pow(g, q), 1, p) && !Cong(g, 1, p)
  }

  /** Against honest commitments a share is accepted exactly when it is the
      value of the committed polynomial, modulo q. */
  lemma AcceptedIff(p: int, q: int, g: int, f: Coefficients, i: int, y: nat)
    requires Group(p, q, g) && forall j :: 0 <= j < |f| ==> 0 <= f[j]
    ensures Cong(Pow(g, y), Combined(Commitments(f, g, p), i, q, |f|), p)
       <==> Cong(y, Eval(f, i), q)
  {
    hide Pow, Combined, Exponent, Eval, Commitments;
    var e := Exponent(f, i, q, |f|);
    CombinedIsPower(f, g, p, i, q, |f|);
    ExponentIsValue(f, i, q, |f|);
    assert f[..|f|] == f;
    PowersAgree(g, q, y, e, p);
  }

  /** In the group of a safe prime p = 2q + 1, four has order q. */
  lemma FourHasOrder(p: int, q: int)
    requires Prime(p) && Prime(q) && p == 2 * q + 1
    ensures Group(p, q, 4)
  {
    hide Pow, Prime;
    assert 2 <= p && 2 <= q by { PrimeAbove(p); PrimeAbove(q); }
    Fermat(p, 2);
    var x := Pow(2, 2 * q);
    PowStep(2, 2 * q);
    PowStep(2, 1);
    PowStep(2, 0);
    PowZero(2);
    PowMul(2, 2, q);
    CongSub(2 * x, 2, 2, 2, p);
    assert 2 * (x - 1) == 2 * x - 2;
    DivModUnique(2, p, 0, 2);
    DivModUnique(0, p, 0, 0);
    Euclid(p, 2, x - 1);
    CongAdd(x - 1, 0, 1, 1, p);
    DivModUnique(4, p, 0, 4);
    DivModUnique(1, p, 0, 1);
  }

  lemma PrimeAbove(p: int)
    requires Prime(p)
    ensures 2 <= p
  {
  }

  lemma PowStep(b: int, e: nat)
    ensures Pow(b, e + 1) == b * Pow(b, e)
  {
  }

  lemma PowZero(b: int)
    ensures Pow(b, 0) == 1
  {
  }

  /** Powers with a signed exponent only depend on it modulo q. */
  lemma SignedPowPeriod(y: int)
    requires Prime(P) && Prime(Q)
    ensures Cong(SignedPow(y), Pow(G, y % Q), P)
  {
    hide Pow, Prime, Inverse, HasInverse;
    FourHasOrder(P, Q);
    assert 0 <= y % Q by { CongReduce(y, Q); }
    if y >= 0 {
      PowModPeriod(G, Q, y, P);
    } else {
      GeneratorInvertible();
      var n, e, inv := -y, y % Q, Inverse(G, P);
      PowProduct(G, inv, n);
      PowCong(G * inv, 1, n, P);
      PowOne(n);
      PowAdd(G, n, e);
      CongReduce(y, Q);
      CongAdd(e, y, n, n, Q);
      PowModPeriod(G, Q, n + e, P);
      DivModUnique(0, Q, 0, 0);
      PowZero(G);
      InverseUnique(Pow(G, n), Pow(inv, n), Pow(G, e), P);
    }
  }

  /** The share check with the built-in group, for every share and every
      polynomial the dealer can have committed to. */
  lemma VerifyAcceptsExactlyValues(f: Coefficients, i: int, y: int)
    requires Prime(P) && Prime(Q) && forall j :: 0 <= j < |f| ==> 0 <= f[j]
    ensures Passes((i, y), Commitments(f, G, P)) <==> Cong(y, Eval(f, i), Q)
  {
    hide Prime, SignedPow, Combined, Commitments, Eval;
    FourHasOrder(P, Q);
    SignedPowPeriod(y);
    CongReduce(y, Q);
    AcceptedIff(P, Q, G, f, i, y % Q);
  }

  // ----- reconstruction -----

  function Points(shares: seq<Share>): (xs: seq<int>)
    ensures |xs| == |shares|
    ensures forall a :: 0 <= a < |xs| ==> xs[a] == shares[a].0
  {
    seq(|shares|, a requires 0 <= a < |shares| => shares[a].0)
  }

  /** The denominator of share a, reduced. */
  function Denominator(shares: seq<Share>, a: nat): int
    requires a < |shares|
  {
    Differences(Points(shares), shares[a].0, a, |shares|) % Q
  }

  function Weight(shares: seq<Share>, a: nat): int
    requires a < |shares|
  {
    var d := Denominator(shares, a);
    if HasInverse(d, Q) then shares[a].1 * Inverse(d, Q) else 0
  }

  function WeightsOf(shares: seq<Share>): (ws: seq<int>)
    ensures |ws| == |shares|
    ensures forall a :: 0 <= a < |ws| ==> ws[a] == Weight(shares, a)
  {
    seq(|shares|, a requires 0 <= a < |shares| => Weight(shares, a))
  }

  predicate Solvable(shares: seq<Share>) {
    forall a :: 0 <= a < |shares| ==> HasInverse(Denominator(shares, a), Q)
  }

  /** The shares are values of f modulo Q. */
  ghost predicate On(f: Coefficients, shares: seq<Share>) {
    forall a :: 0 <= a < |shares| ==> Cong(shares[a].1, Eval(f, shares[a].0), Q)
  }

  method Reconstruct(shares: seq<Share>) returns (r: Result)
    ensures r == if Solvable(shares)
                 then Ok(LagrangeSum(Points(shares), WeightsOf(shares), 0, |shares|) % Q)
                 else NotInvertible
  {
    ghost var xs, ws := Points(shares), WeightsOf(shares);
    var s := 0;
    DivModUnique(1, Q, 0, 1);
    for i := 0 to |shares|
      invariant s == LagrangeSum(xs, ws, 0, i) % Q
      invariant forall a :: 0 <= a < i ==> HasInverse(Denominator(shares, a), Q)
    {
      var xi, yi := shares[i].0, shares[i].1;
      var num, den := 1, 1;
      for j := 0 to |shares|
        invariant num == Differences(xs, 0, i, j) % Q
        invariant den == Differences(xs, xi, i, j) % Q
      {
        if i != j {
          var xj := shares[j].0;
          FactorStep(num, Differences(xs, 0, i, j), 0 - xj, Q);
          FactorStep(den, Differences(xs, xi, i, j), xi - xj, Q);
          num := (num * -xj) % Q;
          den := (den * (xi - xj)) % Q;
        }
      }
      assert den == Denominator(shares, i);
      if !HasInverse(den, Q) {
        return NotInvertible;
      }
      SumStep(s, LagrangeSum(xs, ws, 0, i), yi, num, Differences(xs, 0, i, |xs|), Inverse(den, Q), Q);
      s := (s + yi * num * Inverse(den, Q)) % Q;
    }
    DivModUnique(s, Q, 0, s);
    r := Ok(s % Q);
  }

  lemma FactorStep(r: int, a: int, b: int, m: int)
    requires 0 < m && r == a % m
    ensures (r * b) % m == (a * b) % m
  {
    CongReduce(a, m);
    CongMul(r, a, b, b, m);
  }

  lemma SumStep(s: int, sum: int, y: int, num: int, d: int, inv: int, m: int)
    requires 0 < m && s == sum % m && num == d % m
    ensures (s + y * num * inv) % m == (sum + y * inv * d) % m
  {
    CongReduce(sum, m);
    CongReduce(d, m);
    CongMul(y, y, num, d, m);
    CongMul(y * num, y * d, inv, inv, m);
    Associate(y, d, inv);
    Associate(y, inv, d);
    CongAdd(s, sum, y * num * inv, y * d * inv, m);
  }

  /** Modulo a prime everything but zero has an inverse. */
  lemma InvertibleIff(a: int, p: int)
    requires Prime(p)
    ensures HasInverse(a, p) <==> a % p != 0
  {
    if a % p != 0 {
      var b := a % p;
      CongReduce(a, p);
      CongReduce(b, p);
      FermatInverse(p, b);
      var x := Pow(b, p - 2);
      CongReduce(x, p);
      CongMul(a, b, x % p, x, p);
      assert 0 <= x % p < p && Cong(a * (x % p), 1, p);
    } else {
      forall x | 0 <= x < p ensures !Cong(a * x, 1, p) {
        DividesProduct(a, x, p);
        DivModUnique(1, p, 0, 1);
      }
    }
  }

  /** Reconstruction fails exactly when two of the points coincide modulo Q. */
  lemma SolvableIff(shares: seq<Share>)
    requires Prime(Q)
    ensures Solvable(shares) <==> Distinct(Points(shares), Q)
  {
    hide Differences, HasInverse;
    var xs := Points(shares);
    forall a | 0 <= a < |shares| ensures HasInverse(Denominator(shares, a), Q) <==> !Cong(Differences(xs, xs[a], a, |xs|), 0, Q) {
      InvertibleIff(Denominator(shares, a), Q);
      CongReduce(Differences(xs, xs[a], a, |xs|), Q);
      DivModUnique(0, Q, 0, 0);
    }
    if Distinct(xs, Q) {
      forall a | 0 <= a < |shares| ensures HasInverse(Denominator(shares, a), Q) {
        DifferencesInvertible(Q, xs, a, |xs|);
      }
    } else {
      var i, j :| 0 <= i < j < |xs| && Cong(xs[i], xs[j], Q);
      DifferencesCollide(Q, xs, i, j, |xs|);
      assert !HasInverse(Denominator(shares, i), Q);
    }
  }

  lemma WeightsFit(f: Coefficients, shares: seq<Share>)
    requires Solvable(shares) && On(f, shares)
    ensures Weights(Q, f, Points(shares), WeightsOf(shares))
  {
    hide Eval, Differences, HasInverse, Inverse;
    var xs, ws := Points(shares), WeightsOf(shares);
    forall a | 0 <= a < |xs| ensures Cong(ws[a] * Differences(xs, xs[a], a, |xs|), Eval(f, xs[a]), Q) {
      var d, y := Differences(xs, xs[a], a, |xs|), shares[a].1;
      assert HasInverse(Denominator(shares, a), Q);
      var inv := Inverse(d % Q, Q);
      CongReduce(d, Q);
      CongMul(d % Q, d, inv, inv, Q);
      CongMul(y, y, d * inv, 1, Q);
      Associate(y, inv, d);
    }
  }

  /** Any shares of a polynomial with no more coefficients than shares, at
      points distinct modulo Q, reconstruct its constant term. */
  lemma ReconstructsSecret(f: Coefficients, shares: seq<Share>)
    requires Prime(Q) && f != [] && |f| <= |shares|
    requires Distinct(Points(shares), Q) && On(f, shares)
    ensures Solvable(shares)
    ensures LagrangeSum(Points(shares), WeightsOf(shares), 0, |shares|) % Q == f[0] % Q
  {
    SolvableIff(shares);
    WeightsFit(f, shares);
    Interpolation(Q, f, Points(shares), WeightsOf(shares), 0);
    assert Eval(f, 0) == f[0] + 0 * Eval(f[1..], 0);
  }

  /** Any t shares that pass the check against commitments to f give the secret
      f(0), whatever else the dealer handed out. */
  lemma VerifiedSharesAgree(f: Coefficients, shares: seq<Share>)
    requires Prime(P) && Prime(Q) && f != [] && |f| <= |shares|
    requires forall j :: 0 <= j < |f| ==> 0 <= f[j]
    requires Distinct(Points(shares), Q)
    requires forall a :: 0 <= a < |shares| ==> Passes(shares[a], Commitments(f, G, P))
    ensures Solvable(shares)
    ensures LagrangeSum(Points(shares), WeightsOf(shares), 0, |shares|) % Q == f[0] % Q
  {
    hide Eval, Passes;
    assert On(f, shares) by {
      forall a | 0 <= a < |shares| ensures Cong(shares[a].1, Eval(f, shares[a].0), Q) {
        VerifyAcceptsExactlyValues(f, shares[a].0, shares[a].1);
      }
    }
    ReconstructsSecret(f, shares);
  }

  /** Dealing, checking and reconstructing fit together: every dealt share is
      accepted, and any t or more of them give back the secret. */
  lemma DealRoundTrip(secret: int, t: int, n: int, rand: seq<int>, chosen: seq<nat>)
    requires Prime(P) && Prime(Q) && 1 <= t <= |rand| + 1 && t <= |chosen|
    requires n < Q && forall a :: 0 <= a < |chosen| ==> chosen[a] < n
    requires forall a, b :: 0 <= a < b < |chosen| ==> chosen[a] != chosen[b]
    ensures var f := DealCoefficients(secret, t, rand);
            var shares := DealShares(f, n);
            var picked := seq(|chosen|, a requires 0 <= a < |chosen| => shares[chosen[a]]);
            && (forall k :: 0 <= k < n ==> Passes(shares[k], Commitments(f, G, P)))
            && Solvable(picked)
            && LagrangeSum(Points(picked), WeightsOf(picked), 0, |picked|) % Q == secret % Q
  {
    hide Eval, Passes, DealCoefficients, Solvable, LagrangeSum;
    var f := DealCoefficients(secret, t, rand);
    var shares := DealShares(f, n);
    var picked := seq(|chosen|, a requires 0 <= a < |chosen| => shares[chosen[a]]);
    forall k | 0 <= k < n ensures Passes(shares[k], Commitments(f, G, P)) {
      CongReduce(Eval(f, k + 1), Q);
      VerifyAcceptsExactlyValues(f, k + 1, shares[k].1);
    }
    DistinctIndices(chosen, n, Points(picked));
    assert On(f, picked) by {
      forall a | 0 <= a < |picked| ensures Cong(picked[a].1, Eval(f, picked[a].0), Q) {
        CongReduce(Eval(f, chosen[a] + 1), Q);
      }
    }
    ReconstructsSecret(f, picked);
    CongReduce(secret, Q);
  }

  lemma DistinctIndices(chosen: seq<nat>, n: int, xs: seq<int>)
    requires n < Q && forall a :: 0 <= a < |chosen| ==> chosen[a] < n
    requires forall a, b :: 0 <= a < b < |chosen| ==> chosen[a] != chosen[b]
    requires |xs| == |chosen| && forall a :: 0 <= a < |xs| ==> xs[a] == chosen[a] + 1
    ensures Distinct(xs, Q)
  {
    forall a, b | 0 <= a < b < |xs| ensures !Cong(xs[a], xs[b], Q) {
      DivModUnique(xs[a], Q, 0, xs[a]);
      DivModUnique(xs[b], Q, 0, xs[b]);
    }
  }
}
