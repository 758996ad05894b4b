/** The limb form of Feldman sharing: evaluating the polynomial, checking a
    share and reconstructing the secret, each equal to its form over plain
    integers. */
module FeldmanImpl {
  import opened ModArith
  import opened PrimeField
  import opened FeldmanPoly
  import opened Feldman
  import opened FeldmanLimbs
  import opened FeldmanModMul

  type Limbs = s: seq<Word> | |s| == 4 witness [0, 0, 0, 0]

  const P_LIMBS: Limbs := [0x2ff7f, 0, 0, 0x8000000000000000]
  const Q_LIMBS: Limbs := [0x17fbf, 0, 0, 0x4000000000000000]

  function Numbers(cs: seq<Limbs>): (ns: seq<int>)
    ensures |ns| == |cs|
    ensures forall j :: 0 <= j < |cs| ==> ns[j] == Val(cs[j])
  {
    seq(|cs|, j requires 0 <= j < |cs| => Val(cs[j]))
  }

  lemma ValOfFour(s: Limbs)
    ensures Val(s) == s[0] + BASE * (s[1] + BASE * (s[2] + BASE * s[3]))
  {
    assert s[1..][1..] == s[2..] && s[2..][1..] == s[3..] && s[3..][1..] == [];
    assert Val([]) == 0;
    assert Val(s[3..]) == s[3];
    assert Val(s[2..]) == s[2] + BASE * Val(s[3..]);
    assert Val(s[1..]) == s[1] + BASE * Val(s[2..]);
  }

  lemma Constants()
    ensures Val(P_LIMBS) == P && Val(Q_LIMBS) == Q
    ensures BASE < Q && 2 * Q < P < Place(4)
  {
    ValOfFour(P_LIMBS);
    ValOfFour(Q_LIMBS);
    ValBelow(P_LIMBS);
  }

  method Load(s: Limbs) returns (r: array<Word>)
    ensures fresh(r) && r.Length == 4 && r[..] == s
  {
    r := new Word[4];
    r[0], r[1], r[2], r[3] := s[0], s[1], s[2], s[3];
  }

  predicate Natural(f: Coefficients) {
    forall j :: 0 <= j < |f| ==> 0 <= f[j]
  }

  /** Horner's rule with one conditional subtraction per step. */
  function OnceEval(f: Coefficients, x: nat): nat
    requires Natural(f)
  {
    if f == [] then 0
    else
      assert forall j :: 0 <= j < |f[1..]| ==> f[1..][j] == f[j + 1];
      AddOnce(NaturalProduct(OnceEval(f[1..], x), x) % Q + f[0], Q)
  }

  function NaturalProduct(a: nat, b: nat): (p: nat)
    ensures p == a * b
  {
    NonNegative(a, b);
    a * b
  }

  /** poly_eval, for all coefficients and points.  It gives the value modulo Q
      exactly when its last addition stays below 2 Q; too large intermediate
      values are reduced by the multiplication that follows. */
  method PolyEval(coeffs: seq<Limbs>, x: Word, out: array<Word>)
    requires out.Length == 4
    modifies out
    ensures Val(out[..]) == OnceEval(Numbers(coeffs), x)
    ensures var f := Numbers(coeffs);
            f != [] && (forall j :: 0 <= j < |f| ==> f[j] <= Place(4) - Q)
            ==> (Val(out[..]) == Eval(f, x) % Q <==> (x * Eval(f[1..], x)) % Q + f[0] < 2 * Q)
  {
    hide Val, Place, Eval, OnceEval, AddOnce;
    Constants();
    ghost var f := Numbers(coeffs);
    var q := Load(Q_LIMBS);
    var r := Small(0);
    var xx := Small(x);
    var i := |coeffs|;
    assert f[i..] == [];
    OnceEvalNone(x);
    while i > 0
      invariant 0 <= i <= |coeffs|
      invariant q[..] == Q_LIMBS && Val(xx[..]) == x && q != r && xx != r
      invariant Val(r[..]) == OnceEval(f[i..], x)
    {
      i := i - 1;
      MulMod(r, xx, q, r);
      var c := Load(coeffs[i]);
      AddMod(r, c, q, r);
      assert f[i..][1..] == f[i + 1..] && f[i..][0] == f[i];
      OnceEvalStep(f[i..], x);
    }
    assert f[0..] == f;
    CopyLimbs(r, out);
    if f != [] && (forall j :: 0 <= j < |f| ==> f[j] <= Place(4) - Q) {
      OnceEvalIff(f, x);
    }
  }

  lemma OnceEvalNone(x: nat)
    ensures OnceEval([], x) == 0
  {
  }

  lemma OnceEvalStep(f: Coefficients, x: nat)
    requires Natural(f) && f != []
    ensures Natural(f[1..]) && OnceEval(f, x) == AddOnce((OnceEval(f[1..], x) * x) % Q + f[0], Q)
  {
    assert forall j :: 0 <= j < |f[1..]| ==> f[1..][j] == f[j + 1];
  }

  /** Nothing that is lost in one step is needed modulo Q. */
  lemma AddOnceCongruent(s: nat, n: nat)
    requires 0 < n && s < Place(4)
    ensures Cong(AddOnce(s, n), s, n)
  {
    hide Place;
    DivModUnique(s, Place(4), 0, s);
    if s >= n {
      CongFrom(s - n, s, -1, n);
    }
  }

  lemma {:induction false} OnceEvalCongruent(f: Coefficients, x: nat)
    requires Natural(f) && forall j :: 0 <= j < |f| ==> f[j] <= Place(4) - Q
    ensures Cong(OnceEval(f, x), Eval(f, x), Q)
    decreases |f|
  {
    hide Place, OnceEval, AddOnce, Eval;
    if f == [] {
      OnceEvalNone(x);
      EmptyPolynomial(x);
    } else {
      OnceEvalStep(f, x);
      EvalStep(f, x);
      OnceEvalCongruent(f[1..], x);
      LastSum(f, x);
      AddOnceCongruent((x * Eval(f[1..], x)) % Q + f[0], Q);
      ReduceSum(x * Eval(f[1..], x), f[0], Q);
    }
  }

  /** The last addition, with the tail only known modulo Q. */
  lemma LastSum(f: Coefficients, x: nat)
    requires Natural(f) && f != [] && f[0] <= Place(4) - Q
    requires Natural(f[1..]) && Cong(OnceEval(f[1..], x), Eval(f[1..], x), Q)
    ensures (OnceEval(f[1..], x) * x) % Q == (x * Eval(f[1..], x)) % Q
    ensures 0 <= (x * Eval(f[1..], x)) % Q + f[0] < Place(4)
  {
    hide Place, OnceEval, Eval;
    CongMul(OnceEval(f[1..], x), Eval(f[1..], x), x, x, Q);
    CongReduce(x * Eval(f[1..], x), Q);
  }

  lemma OnceEvalIff(f: Coefficients, x: nat)
    requires Natural(f) && f != [] && forall j :: 0 <= j < |f| ==> f[j] <= Place(4) - Q
    ensures OnceEval(f, x) == Eval(f, x) % Q <==> (x * Eval(f[1..], x)) % Q + f[0] < 2 * Q
  {
    hide Place, OnceEval, AddOnce, Eval;
    OnceEvalStep(f, x);
    OnceEvalCongruent(f[1..], x);
    LastSum(f, x);
    var s := (x * Eval(f[1..], x)) % Q + f[0];
    AddOnceReduces(s, Q);
    DivModUnique(s, Place(4), 0, s);
    ReduceSum(x * Eval(f[1..], x), f[0], Q);
    EvalStep(f, x);
  }

  /** One where the addition of a step passes 2^256, zero elsewhere. */
  function Wraps(f: Coefficients, x: nat): (w: Coefficients)
    requires Natural(f)
    ensures |w| == |f|
  {
    if f == [] then []
    else
      assert forall j :: 0 <= j < |f[1..]| ==> f[1..][j] == f[j + 1];
      [if NaturalProduct(OnceEval(f[1..], x), x) % Q + f[0] >= Place(4) then 1 else 0] + Wraps(f[1..], x)
  }

  lemma WrapsStep(f: Coefficients, x: nat)
    requires Natural(f) && f != []
    ensures Natural(f[1..]) && Wraps(f, x)[1..] == Wraps(f[1..], x)
    ensures Wraps(f, x)[0] == if (OnceEval(f[1..], x) * x) % Q + f[0] >= Place(4) then 1 else 0
  {
    assert forall j :: 0 <= j < |f[1..]| ==> f[1..][j] == f[j + 1];
  }

  /** A step loses 2^256 where it wraps. */
  lemma AddOnceLoses(s: nat, n: nat, w: int)
    requires 0 < n && s < 2 * Place(4) && w == if s >= Place(4) then 1 else 0
    ensures Cong(AddOnce(s, n), s - Place(4) * w, n)
  {
    hide Place;
    DivModUnique(s, Place(4), w, s - Place(4) * w);
    var cut := s - Place(4) * w;
    if cut >= n {
      CongFrom(cut - n, cut, -1, n);
    }
  }

  /** What the wrapped additions lose is again a polynomial in x. */
  lemma {:induction false} OnceEvalLoses(f: Coefficients, x: nat)
    requires Natural(f) && forall j :: 0 <= j < |f| ==> f[j] < Place(4)
    ensures Cong(OnceEval(f, x), Eval(f, x) - Place(4) * Eval(Wraps(f, x), x), Q)
    decreases |f|
  {
    hide Place, OnceEval, AddOnce, Eval, Wraps;
    if f == [] {
      OnceEvalNone(x);
      EmptyPolynomial(x);
      assert Wraps(f, x) == [];
      assert Place(4) * 0 == 0;
    } else {
      Constants();
      var tail, cap := f[1..], Place(4);
      OnceEvalStep(f, x);
      WrapsStep(f, x);
      OnceEvalLoses(tail, x);
      EvalStep(f, x);
      EvalStep(Wraps(f, x), x);
      var r, e, l, w := OnceEval(tail, x), Eval(tail, x), Eval(Wraps(tail, x), x), Wraps(f, x)[0];
      CongReduce(r * x, Q);
      AddOnceLoses((r * x) % Q + f[0], Q, w);
      CongMul(r, e - cap * l, x, x, Q);
      CongAdd((r * x) % Q, (e - cap * l) * x, f[0] - cap * w, f[0] - cap * w, Q);
      LossOfStep(e, l, cap, w, f[0], x);
    }
  }

  lemma LossOfStep(e: int, l: int, cap: int, w: int, c: int, x: int)
    ensures (e - cap * l) * x + (c - cap * w) == (c + x * e) - cap * (w + x * l)
  {
    Distribute(e, cap * l, x);
    Distribute(w, x * l, cap);
    Associate(cap, l, x);
    Associate(cap, x, l);
  }

  /** The exact condition for all 256-bit coefficients: the last addition ends
      below 2 Q, and the wrapped steps cancel modulo Q. */
  lemma OnceEvalExact(f: Coefficients, x: nat)
    requires Prime(Q) && Natural(f) && f != [] && forall j :: 0 <= j < |f| ==> f[j] < Place(4)
    ensures Natural(f[1..])
    ensures OnceEval(f, x) == Eval(f, x) % Q
       <==> ((OnceEval(f[1..], x) * x) % Q + f[0]) % Place(4) < 2 * Q && Eval(Wraps(f, x), x) % Q == 0
  {
    hide Place, OnceEval, Eval, Wraps, Prime;
    Constants();
    OnceEvalStep(f, x);
    OnceEvalLoses(f, x);
    var e, l, r, cap := Eval(f, x), Eval(Wraps(f, x), x), OnceEval(f, x), Place(4);
    CongReduce(e, Q);
    DivModUnique(0, Q, 0, 0);
    assert r < Q <==> ((OnceEval(f[1..], x) * x) % Q + f[0]) % cap < 2 * Q;
    if l % Q == 0 {
      DividesProduct(l, cap, Q);
      CongSub(e, e, cap * l, 0, Q);
    } else if r == e % Q {
      CongSub(e, e - cap * l, e - cap * l, e - cap * l, Q);
      CapacityIsNoMultiple();
      Euclid(Q, cap, l);
    }
    if r < Q {
      DivModUnique(r, Q, 0, r);
    }
  }

  lemma CapacityIsNoMultiple()
    ensures Place(4) % Q != 0
  {
    var r := Place(4) - 3 * Q;
    assert Place(4) == BASE * BASE * BASE * BASE;
    DivModUnique(Place(4), Q, 3, r);
  }

  /** An unreduced secret of 2 Q is not reduced at any point; Q + 1 is. */
  lemma UnreducedSecrets(x: nat)
    ensures OnceEval([2 * Q], x) == Q != Eval([2 * Q], x) % Q
    ensures OnceEval([Q + 1], x) == 1 == Eval([Q + 1], x) % Q
  {
    hide Place;
    Constants();
    OneCoefficient(2 * Q, x);
    OneCoefficient(Q + 1, x);
    DivModUnique(2 * Q, Place(4), 0, 2 * Q);
    DivModUnique(Q + 1, Place(4), 0, Q + 1);
    DivModUnique(2 * Q, Q, 2, 0);
    DivModUnique(Q + 1, Q, 1, 1);
  }

  lemma OneCoefficient(c: nat, x: nat)
    ensures OnceEval([c], x) == AddOnce(c, Q) && Eval([c], x) == c
  {
    hide AddOnce;
    assert [c][1..] == [];
    OnceEvalNone(x);
    OnceEvalStep([c], x);
    EmptyPolynomial(x);
    EvalStep([c], x);
    DivModUnique(0, Q, 0, 0);
    assert x * 0 == 0 && 0 * x == 0;
  }

  lemma AddOnceSmall(s: nat, n: nat)
    requires s < 2 * n < Place(4)
    ensures AddOnce(s, n) == s % n
  {
    hide Place;
    AddOnceReduces(s, n);
    DivModUnique(s, Place(4), 0, s);
  }

  lemma EvalStep(f: Coefficients, x: int)
    requires f != []
    ensures Eval(f, x) == f[0] + x * Eval(f[1..], x)
  {
  }

  lemma ReduceSum(a: int, c: int, m: int)
    requires 0 < m
    ensures (a % m + c) % m == (a + c) % m
    ensures 0 <= a % m < m
  {
    CongReduce(a, m);
    CongAdd(a % m, a, c, c, m);
  }

  /** One round of the check: another commitment power, another power of i. */
  method Accumulate(rhs: array<Word>, ipow: array<Word>, commit: Limbs, i: Word, p: array<Word>, q: array<Word>)
    requires rhs.Length == 4 && ipow.Length == 4 && p.Length == 4 && q.Length == 4
    requires p[..] == P_LIMBS && q[..] == Q_LIMBS
    requires rhs != ipow && p != rhs && p != ipow && q != rhs && q != ipow
    modifies rhs, ipow
    ensures Val(rhs[..]) == (old(Val(rhs[..])) * (Pow(Val(commit), old(Val(ipow[..]))) % P)) % P
    ensures Val(ipow[..]) == (old(Val(ipow[..])) * i) % Q
  {
    hide Val, Place, Pow;
    Constants();
    var c := Load(commit);
    var term := new Word[4];
    PowMod(c, ipow, p, term);
    MulMod(rhs, term, p, rhs);
    var ii := Small(i);
    MulMod(ipow, ii, q, ipow);
  }

  /** The share check on limbs decides the same equation modulo p. */
  method VerifyShareLimbs(i: Word, y: Limbs, commits: seq<Limbs>) returns (ok: bool)
    ensures ok == Passes((i, Val(y)), Numbers(commits))
  {
    hide Val, Place, Pow, Combined;
    Constants();
    ghost var cs := Numbers(commits);
    var p := Load(P_LIMBS);
    var q := Load(Q_LIMBS);
    var g := Small(2);
    MulMod(g, g, p, g);
    assert Val(g[..]) == G by { DivModUnique(4, P, 0, 4); }
    var lhs := new Word[4];
    var share := Load(y);
    PowMod(g, share, p, lhs);
    var rhs := Small(1);
    var ipow := Small(1);
    CombinedStart(cs, i);
    for j := 0 to |commits|
      invariant p[..] == P_LIMBS && q[..] == Q_LIMBS
      invariant p != rhs && q != rhs && p != ipow && q != ipow && rhs != ipow && lhs != rhs && lhs != ipow
      invariant Val(lhs[..]) == Pow(G, Val(y)) % P
      invariant Val(rhs[..]) == Combined(cs, i, Q, j) % P
      invariant Val(ipow[..]) == Pow(i, j) % Q
    {
      Accumulate(rhs, ipow, commits[j], i, p, q);
      ProductStep(Combined(cs, i, Q, j) % P, Combined(cs, i, Q, j), Pow(cs[j], Pow(i, j) % Q), P);
      CombinedStep(cs, i, j);
      FactorStep(Pow(i, j) % Q, Pow(i, j), i, Q);
    }
    var c := UCmp(lhs, rhs);
    ok := c == 0;
  }

  lemma CombinedStart(cs: seq<int>, i: int)
    ensures Combined(cs, i, Q, 0) % P == 1 && Pow(i, 0) % Q == 1
  {
    DivModUnique(1, P, 0, 1);
    DivModUnique(1, Q, 0, 1);
  }

  lemma CombinedStep(cs: seq<int>, i: int, j: nat)
    requires j < |cs|
    ensures Combined(cs, i, Q, j + 1) == Combined(cs, i, Q, j) * Pow(cs[j], Pow(i, j) % Q)
    ensures Pow(i, j + 1) == Pow(i, j) * i
  {
  }

  // ----- reconstruction -----

  function Shares(xs: seq<Word>, ys: seq<Limbs>): (shares: seq<Share>)
    requires |xs| == |ys|
    ensures |shares| == |xs|
    ensures forall a :: 0 <= a < |xs| ==> shares[a] == (xs[a] as int, Val(ys[a]))
  {
    seq(|xs|, a requires 0 <= a < |xs| => (xs[a] as int, Val(ys[a])))
  }

  /** The numerator at zero and the denominator of share a. */
  method Fraction(xs: seq<Word>, a: nat, q: array<Word>, num: array<Word>, den: array<Word>)
    requires a < |xs| && q.Length == 4 && num.Length == 4 && den.Length == 4
    requires num != den && q != num && q != den && q[..] == Q_LIMBS
    modifies num, den
    ensures Val(num[..]) == Differences(xs, 0, a, |xs|) % Q
    ensures Val(den[..]) == Differences(xs, xs[a], a, |xs|) % Q
  {
    hide Val, Place, Differences;
    Constants();
    var one := Small(1);
    CopyLimbs(one, num);
    CopyLimbs(one, den);
    DifferencesStart(xs, a);
    for b := 0 to |xs|
      invariant q[..] == Q_LIMBS
      invariant Val(num[..]) == Differences(xs, 0, a, b) % Q
      invariant Val(den[..]) == Differences(xs, xs[a], a, b) % Q
    {
      DifferencesStep(xs, a, b);
      if a != b {
        ScaleNumerator(xs[b], q, num, Differences(xs, 0, a, b));
        ScaleDenominator(xs[a], xs[b], q, den, Differences(xs, xs[a], a, b));
      }
    }
  }

  /** Multiplies the numerator by -x_j. */
  method ScaleNumerator(xj: Word, q: array<Word>, num: array<Word>, ghost n: int)
    requires q.Length == 4 && num.Length == 4 && q != num && q[..] == Q_LIMBS
    requires Val(num[..]) == n % Q
    modifies num
    ensures Val(num[..]) == (n * -(xj as int)) % Q
  {
    hide Val, Place;
    Constants();
    var x := Small(xj);
    var neg := new Word[4];
    USub(q, x, neg);
    DivModUnique(Q - xj, Place(4), 0, Q - xj);
    FactorModulo(n % Q, n, Q - xj, -(xj as int), 1);
    MulMod(num, neg, q, num);
  }

  /** Multiplies the denominator by x_i - x_j. */
  method ScaleDenominator(xi: Word, xj: Word, q: array<Word>, den: array<Word>, ghost d: int)
    requires q.Length == 4 && den.Length == 4 && q != den && q[..] == Q_LIMBS
    requires Val(den[..]) == d % Q
    modifies den
    ensures Val(den[..]) == (d * (xi as int - xj)) % Q
  {
    hide Val, Place;
    Constants();
    var diff, k := PointDifference(xi, xj, q);
    FactorModulo(d % Q, d, Val(diff[..]), xi as int - xj, k);
    MulMod(den, diff, q, den);
  }

  /** x_i - x_j modulo Q, branching on the order of the points. */
  method PointDifference(xi: Word, xj: Word, q: array<Word>) returns (diff: array<Word>, ghost k: int)
    requires q.Length == 4 && q[..] == Q_LIMBS
    ensures fresh(diff) && diff.Length == 4
    ensures Val(diff[..]) == (xi as int) - xj + k * Q
  {
    hide Val, Place;
    Constants();
    var i := Small(xi);
    var j := Small(xj);
    diff := new Word[4];
    var ge := UGe(i, j);
    if ge {
      USub(i, j, diff);
      DivModUnique(xi as int - xj, Place(4), 0, xi as int - xj);
      k := 0;
    } else {
      USub(j, i, diff);
      DivModUnique(xj as int - xi, Place(4), 0, xj as int - xi);
      USub(q, diff, diff);
      DivModUnique(Q - (xj as int - xi), Place(4), 0, Q - (xj as int - xi));
      k := 1;
    }
  }

  lemma DifferencesStart(xs: seq<int>, a: nat)
    requires a < |xs|
    ensures Differences(xs, 0, a, 0) % Q == 1 && Differences(xs, xs[a], a, 0) % Q == 1
  {
    DivModUnique(1, Q, 0, 1);
  }

  lemma DifferencesStep(xs: seq<int>, a: nat, b: nat)
    requires a < |xs| && b < |xs|
    ensures Differences(xs, 0, a, b + 1)
         == if a == b then Differences(xs, 0, a, b) else Differences(xs, 0, a, b) * (0 - xs[b])
    ensures Differences(xs, xs[a], a, b + 1)
         == if a == b then Differences(xs, xs[a], a, b) else Differences(xs, xs[a], a, b) * (xs[a] - xs[b])
  {
  }

  lemma FactorModulo(r: int, a: int, b: int, b': int, k: int)
    requires r == a % Q && b == b' + k * Q
    ensures (r * b) % Q == (a * b') % Q
  {
    CongReduce(a, Q);
    CongFrom(b, b', k, Q);
    CongMul(r, a, b, b', Q);
  }

  /** The Fermat power is the inverse when there is one, and zero otherwise. */
  lemma FermatWeight(shares: seq<Share>, a: nat)
    requires Prime(Q) && a < |shares|
    ensures Cong(shares[a].1 * Pow(Denominator(shares, a), Q - 2), Weight(shares, a), Q)
  {
    hide Differences;
    var d, y := Denominator(shares, a), shares[a].1;
    CongReduce(Differences(Points(shares), shares[a].0, a, |shares|), Q);
    InvertibleIff(d, Q);
    DivModUnique(d, Q, 0, d);
    if d != 0 {
      FermatInverse(Q, d);
      InverseUnique(d, Pow(d, Q - 2), Inverse(d, Q), Q);
      CongMul(y, y, Pow(d, Q - 2), Inverse(d, Q), Q);
    } else {
      assert Pow(0, Q - 2) == 0 * Pow(0, Q - 3);
      assert y * 0 == 0;
    }
  }

  /** The numerator times the Fermat power of the denominator times y. */
  method Term(xs: seq<Word>, y: Limbs, a: nat, q: array<Word>) returns (term: array<Word>)
    requires a < |xs| && q.Length == 4 && q[..] == Q_LIMBS
    ensures fresh(term) && term.Length == 4
    ensures Val(term[..]) == LagrangeTerm(Differences(xs, 0, a, |xs|), Differences(xs, xs[a], a, |xs|), Val(y))
  {
    hide Val, Place, Pow, Prime, Differences;
    Constants();
    var num, den, inv := new Word[4], new Word[4], new Word[4];
    term := new Word[4];
    Fraction(xs, a, q, num, den);
    InvMod(den, q, inv);
    MulMod(num, inv, q, term);
    var share := Load(y);
    MulMod(term, share, q, term);
  }

  function LagrangeTerm(n: int, d: int, y: int): int {
    (((n % Q) * (Pow(d % Q, Q - 2) % Q)) % Q * y) % Q
  }

  /** Lagrange reconstruction on limbs gives the value of the plain form; where
      that form raises an error because two points coincide, this one drops the
      terms without an inverse. */
  method ReconstructLimbs(xs: seq<Word>, ys: seq<Limbs>, s: array<Word>)
    requires Prime(Q) && |xs| == |ys| && s.Length == 4
    modifies s
    ensures var shares := Shares(xs, ys);
            Val(s[..]) == LagrangeSum(Points(shares), WeightsOf(shares), 0, |shares|) % Q
  {
    hide Val, Place, Pow, Prime, Differences, LagrangeSum, Weight, LagrangeTerm;
    Constants();
    ghost var shares := Shares(xs, ys);
    ghost var points, ws := Points(shares), WeightsOf(shares);
    assert points == xs;
    var q := Load(Q_LIMBS);
    var sum := Small(0);
    assert LagrangeSum(points, ws, 0, 0) % Q == 0 by { SumStart(points, ws); }
    for a := 0 to |xs|
      invariant q[..] == Q_LIMBS && fresh(sum) && q != sum
      invariant Val(sum[..]) == LagrangeSum(points, ws, 0, a) % Q
    {
      var term := Term(xs, ys[a], a, q);
      TermStep(shares, a, Val(term[..]));
      ReduceSum(LagrangeSum(points, ws, 0, a), Val(term[..]), Q);
      AddOnceSmall(LagrangeSum(points, ws, 0, a) % Q + Val(term[..]), Q);
      AddMod(sum, term, q, sum);
      SumNext(points, ws, a, Val(term[..]));
    }
    CopyLimbs(sum, s);
  }

  /** Two shares at one point: the plain form fails, this one gives zero. */
  lemma CoincidingPoints(x: int, y: int, y': int)
    ensures var shares := [(x, y), (x, y')];
            && !Solvable(shares)
            && LagrangeSum(Points(shares), WeightsOf(shares), 0, |shares|) % Q == 0
  {
    var shares: seq<Share> := [(x, y), (x, y')];
    var xs, ws := Points(shares), WeightsOf(shares);
    assert xs == [x, x];
    TwoDifferences(x);
    NoInverseOfZero();
    assert Denominator(shares, 0) == 0 && Denominator(shares, 1) == 0;
    assert ws[0] == 0 && ws[1] == 0;
    TwoTerms(xs, ws);
  }

  lemma TwoDifferences(x: int)
    ensures Differences([x, x], x, 0, 2) % Q == 0 && Differences([x, x], x, 1, 2) % Q == 0
  {
    assert Differences([x, x], x, 0, 2) == Differences([x, x], x, 0, 1) * (x - x);
    assert Differences([x, x], x, 1, 1) == Differences([x, x], x, 1, 0) * (x - x);
    DivModUnique(0, Q, 0, 0);
  }

  lemma NoInverseOfZero()
    ensures !HasInverse(0, Q)
  {
    DivModUnique(0, Q, 0, 0);
    DivModUnique(1, Q, 0, 1);
    forall x | 0 <= x < Q ensures !Cong(0 * x, 1, Q) {
      assert 0 * x == 0;
    }
  }

  lemma TwoTerms(xs: seq<int>, ws: seq<int>)
    requires |xs| == |ws| == 2 && ws[0] == ws[1] == 0
    ensures LagrangeSum(xs, ws, 0, 2) % Q == 0
  {
    hide Differences;
    var d, e := Differences(xs, 0, 0, 2), Differences(xs, 0, 1, 2);
    assert LagrangeSum(xs, ws, 0, 1) == LagrangeSum(xs, ws, 0, 0) + ws[0] * d;
    assert LagrangeSum(xs, ws, 0, 2) == LagrangeSum(xs, ws, 0, 1) + ws[1] * e;
    assert 0 * d == 0 && 0 * e == 0;
    DivModUnique(0, Q, 0, 0);
  }

  lemma SumStart(xs: seq<int>, ws: seq<int>)
    requires |ws| == |xs|
    ensures LagrangeSum(xs, ws, 0, 0) % Q == 0
  {
    DivModUnique(0, Q, 0, 0);
  }

  lemma SumNext(xs: seq<int>, ws: seq<int>, a: nat, term: int)
    requires |ws| == |xs| && a < |xs| && Cong(term, ws[a] * Differences(xs, 0, a, |xs|), Q)
    ensures LagrangeSum(xs, ws, 0, a + 1) % Q == (LagrangeSum(xs, ws, 0, a) + term) % Q
  {
    hide Differences;
    var s := LagrangeSum(xs, ws, 0, a);
    CongAdd(s, s, term, ws[a] * Differences(xs, 0, a, |xs|), Q);
  }

  lemma TermStep(shares: seq<Share>, a: nat, term: int)
    requires Prime(Q) && a < |shares|
    requires term == LagrangeTerm(Differences(Points(shares), 0, a, |shares|),
                                  Differences(Points(shares), shares[a].0, a, |shares|), shares[a].1)
    ensures 0 <= term < Q
    ensures Cong(term, WeightsOf(shares)[a] * Differences(Points(shares), 0, a, |shares|), Q)
  {
    hide Differences, Pow, Weight, Prime;
    var d, w, y := Differences(Points(shares), 0, a, |shares|), Pow(Denominator(shares, a), Q - 2), shares[a].1;
    FermatWeight(shares, a);
    CongReduce(d, Q);
    CongReduce(w, Q);
    var num, inv := d % Q, w % Q;
    CongMul(num, d, inv, w, Q);
    CongReduce(num * inv, Q);
    CongMul((num * inv) % Q, d * w, y, y, Q);
    CongReduce((num * inv) % Q * y, Q);
    CongMul(y * w, Weight(shares, a), d, d, Q);
    Rearrange(d, w, y);
  }

  lemma Rearrange(d: int, w: int, y: int)
    ensures (d * w) * y == (y * w) * d
  {
    Associate(d, w, y);
    Associate(y, w, d);
  }
}
