/** Arithmetic in Z_q[X] / (X^256 + 1), directly and through the transform. */
module MlKemRing {
  import opened ModArith
  import opened MlKemField
  import opened MlKemNtt

  // ----- the ring product, by definition -----

  /** Coefficient `t` of g extended by X^256 = -1, for -256 <= t < 256. */
  function NegacyclicAt(g: Poly, t: int): int
    requires -256 <= t < 256
  {
    if t >= 0 then g[t] else
    var x: int := g[t + 256];
    -x
  }

  /** The sum of f[i] times coefficient t - i of g, over all i. */
  function Convolve(f: seq<Zq>, g: Poly, t: int): int
    requires |f| <= t + 257 && t < 256
    decreases |f|
  {
    if f == [] then 0 else f[0] * NegacyclicAt(g, t) + Convolve(f[1..], g, t - 1)
  }

  /** The product of f and g modulo X^256 + 1 and q. */
  function PolyMul(f: Poly, g: Poly): Poly {
    seq(256, t requires 0 <= t < 256 => Convolve(f, g, t) % Q)
  }

  // ----- the product of transforms -----

  /** (a0 + a1 X)(b0 + b1 X) modulo X^2 - c: constant and linear coefficient. */
  function PairLow(a0: int, a1: int, b0: int, b1: int, c: int): Zq {
    (a0 * b0 + a1 * b1 % Q * c) % Q
  }

  function PairHigh(a0: int, a1: int, b0: int, b1: int): Zq {
    (a0 * b1 + a1 * b0) % Q
  }

  /** Pairwise product of two transforms; entries need not be reduced. */
  function BaseMul(a: seq<nat>, b: seq<nat>): Poly
    requires |a| == 256 && |b| == 256
  {
    seq(256, p requires 0 <= p < 256 =>
      var i := p / 2;
      if p % 2 == 0 then PairLow(a[2 * i], a[2 * i + 1], b[2 * i], b[2 * i + 1], Gamma(i))
      else PairHigh(a[2 * i], a[2 * i + 1], b[2 * i], b[2 * i + 1]))
  }

  lemma BaseMulAt(a: seq<nat>, b: seq<nat>, i: nat)
    requires |a| == 256 && |b| == 256 && i < 128
    ensures BaseMul(a, b)[2 * i] == PairLow(a[2 * i], a[2 * i + 1], b[2 * i], b[2 * i + 1], Gamma(i))
    ensures BaseMul(a, b)[2 * i + 1] == PairHigh(a[2 * i], a[2 * i + 1], b[2 * i], b[2 * i + 1])
  {
    assert 2 * i / 2 == i && (2 * i + 1) / 2 == i;
  }

  // ----- reduction modulo X^2 - c is multiplicative -----

  /** The unreduced product of f, of any length up to 256, and g. */
  function Product(f: seq<Zq>, g: Poly): (h: seq<int>)
    requires |f| <= 256
    ensures |h| == 256
  {
    seq(256, t requires 0 <= t < 256 => Convolve(f, g, t))
  }

  /** X times h modulo X^256 + 1. */
  function TimesX(h: seq<int>): (r: seq<int>)
    requires |h| == 256
    ensures |r| == 256
  {
    [0 - h[255]] + h[..255]
  }

  function AddScaled(a: int, g: seq<int>, h: seq<int>): (r: seq<int>)
    requires |g| == |h|
    ensures |r| == |h|
  {
    seq(|h|, t requires 0 <= t < |h| => a * g[t] + h[t])
  }

  lemma {:induction false} ConvolveWraps(f: seq<Zq>, g: Poly, t: int)
    requires |f| <= t + 1 && t < 256
    ensures Convolve(f, g, t - 256) == 0 - Convolve(f, g, t)
    decreases |f|
  {
    if f != [] {
      ConvolveWraps(f[1..], g, t - 1);
    }
  }

  /** Horner's rule for the product: (a + X f) g = a g + X (f g). */
  lemma ProductStep(f: seq<Zq>, g: Poly)
    requires 1 <= |f| <= 256
    ensures Product(f, g) == AddScaled(f[0], g, TimesX(Product(f[1..], g)))
  {
    ConvolveWraps(f[1..], g, 255);
  }

  lemma {:induction false} StridedAddScaled(a: int, g: seq<int>, h: seq<int>, r: nat, c: int)
    requires |g| == |h|
    ensures Strided(AddScaled(a, g, h), r, 2, c) == a * Strided(g, r, 2, c) + Strided(h, r, 2, c)
    decreases |h| - r
  {
    if r < |h| {
      StridedAddScaled(a, g, h, r + 2, c);
      var s, t := Strided(g, r + 2, 2, c), Strided(h, r + 2, 2, c);
      Distribute(a * s, t, c);
      Associate(c, a, s);
      Distribute(g[r], c * s, a);
    }
  }

  /** Dropping the first coefficient shifts the offset. */
  lemma {:induction false} StridedTail(h: seq<int>, r: nat, c: int)
    requires 1 <= |h|
    ensures Strided(h[1..], r, 2, c) == Strided(h, r + 1, 2, c)
    decreases |h| - r
  {
    if r < |h| - 1 {
      StridedTail(h, r + 2, c);
    }
  }

  /** Dropping the last of 256 coefficients loses its top power, an odd position. */
  lemma {:induction false} StridedInit(h: seq<int>, r: nat, c: int, e: nat)
    requires |h| == 256 && r + 2 * e == 255
    ensures Strided(h, r, 2, c) == Strided(h[..255], r, 2, c) + Pow(c, e) * h[255]
    decreases e
  {
    if e == 0 {
      assert Strided(h, 257, 2, c) == 0;
    } else {
      StridedInit(h, r + 2, c, e - 1);
      Distribute(Strided(h[..255], r + 2, 2, c), Pow(c, e - 1) * h[255], c);
      Associate(c, Pow(c, e - 1), h[255]);
    }
  }

  lemma {:induction false} StridedInitEven(h: seq<int>, r: nat, c: int)
    requires |h| == 256 && r % 2 == 0
    ensures Strided(h, r, 2, c) == Strided(h[..255], r, 2, c)
    decreases 256 - r
  {
    if r < 255 {
      StridedInitEven(h, r + 2, c);
    }
  }

  /** Multiplying by X sends (r0, r1) to (c r1, r0) modulo X^2 - c. */
  lemma TimesXReduces(h: seq<int>, c: int)
    requires |h| == 256 && Cong(Pow(c, 128), -1, Q)
    ensures Cong(Strided(TimesX(h), 0, 2, c), c * Strided(h, 1, 2, c), Q)
    ensures Strided(TimesX(h), 1, 2, c) == Strided(h, 0, 2, c)
  {
    var x := TimesX(h);
    assert x[1..] == h[..255];
    StridedTail(x, 0, c);
    StridedTail(x, 1, c);
    StridedInitEven(h, 0, c);
    StridedInit(h, 1, c, 127);
    var s := Strided(h[..255], 1, 2, c);
    var p := Pow(c, 127) * h[255];
    Distribute(s, p, c);
    Associate(c, Pow(c, 127), h[255]);
    assert Pow(c, 128) == c * Pow(c, 127);
    CongMul(Pow(c, 128), -1, h[255], h[255], Q);
    CongAdd(c * s, c * s, -1 * h[255], Pow(c, 128) * h[255], Q);
  }

  /** The two coefficients of f modulo X^2 - c, for f = [a] + t. */
  lemma StridedCons(f: seq<int>, c: int)
    requires f != []
    ensures Strided(f, 0, 2, c) == f[0] + c * Strided(f[1..], 1, 2, c)
    ensures Strided(f, 1, 2, c) == Strided(f[1..], 0, 2, c)
  {
    StridedTail(f, 0, c);
    StridedTail(f, 1, c);
  }

  lemma {:induction false} ProductReduces(f: seq<Zq>, g: Poly, c: int)
    requires |f| <= 256 && Cong(Pow(c, 128), -1, Q)
    ensures Cong(Strided(Product(f, g), 0, 2, c),
      Strided(f, 0, 2, c) * Strided(g, 0, 2, c) + c * (Strided(f, 1, 2, c) * Strided(g, 1, 2, c)), Q)
    ensures Cong(Strided(Product(f, g), 1, 2, c),
      Strided(f, 0, 2, c) * Strided(g, 1, 2, c) + Strided(f, 1, 2, c) * Strided(g, 0, 2, c), Q)
    decreases |f|
  {
    if f == [] {
      StridedZero(Product(f, g), 0, c);
      StridedZero(Product(f, g), 1, c);
    } else {
      var h := Product(f[1..], g);
      ProductStep(f, g);
      ProductReduces(f[1..], g, c);
      TimesXReduces(h, c);
      StridedAddScaled(f[0], g, TimesX(h), 0, c);
      StridedAddScaled(f[0], g, TimesX(h), 1, c);
      StridedCons(f, c);
      HornerPair(f[0], Strided(f[1..], 0, 2, c), Strided(f[1..], 1, 2, c),
        Strided(g, 0, 2, c), Strided(g, 1, 2, c), c,
        Strided(TimesX(h), 0, 2, c), Strided(h, 0, 2, c), Strided(h, 1, 2, c));
    }
  }

  lemma {:induction false} StridedZero(h: seq<int>, r: nat, c: int)
    requires forall t | 0 <= t < |h| :: h[t] == 0
    ensures Strided(h, r, 2, c) == 0
    decreases |h| - r
  {
    if r < |h| {
      StridedZero(h, r + 2, c);
    }
  }

  /** One Horner step on pairs: (a + X (t0 + t1 X)) (g0 + g1 X) modulo X^2 - c. */
  lemma HornerPair(a: int, t0: int, t1: int, g0: int, g1: int, c: int, x0: int, h0: int, h1: int)
    requires Cong(x0, c * h1, Q)
    requires Cong(h0, t0 * g0 + c * (t1 * g1), Q)
    requires Cong(h1, t0 * g1 + t1 * g0, Q)
    ensures Cong(a * g0 + x0, (a + c * t1) * g0 + c * (t0 * g1), Q)
    ensures Cong(a * g1 + h0, (a + c * t1) * g1 + t0 * g0, Q)
  {
    CongMul(c, c, h1, t0 * g1 + t1 * g0, Q);
    CongAdd(a * g0, a * g0, x0, c * (t0 * g1 + t1 * g0), Q);
    CongAdd(a * g1, a * g1, h0, t0 * g0 + c * (t1 * g1), Q);
    HornerExpand(a, t0, t1, g0, g1, c);
  }

  lemma HornerExpand(a: int, t0: int, t1: int, g0: int, g1: int, c: int)
    ensures (a + c * t1) * g0 + c * (t0 * g1) == a * g0 + c * (t0 * g1 + t1 * g0)
    ensures (a + c * t1) * g1 + t0 * g0 == a * g1 + (t0 * g0 + c * (t1 * g1))
  {
    Distribute(a, c * t1, g0);
    Distribute(a, c * t1, g1);
    Associate(c, t1, g0);
    Associate(c, t1, g1);
    Distribute(t0 * g1, t1 * g0, c);
  }

  lemma {:induction false} StridedCongSeq(f: seq<int>, g: seq<int>, r: nat, c: int)
    requires |f| == |g| && forall t | 0 <= t < |f| :: Cong(f[t], g[t], Q)
    ensures Cong(Strided(f, r, 2, c), Strided(g, r, 2, c), Q)
    decreases |f| - r
  {
    if r < |f| {
      StridedCongSeq(f, g, r + 2, c);
      var s, t := Strided(f, r + 2, 2, c), Strided(g, r + 2, 2, c);
      CongMul(c, c, s, t, Q);
      CongAdd(f[r], g[r], c * s, c * t, Q);
    }
  }

  /** Pair products only depend on the operands modulo q. */
  lemma PairCong(a0: int, a1: int, b0: int, b1: int, x0: int, x1: int, y0: int, y1: int, c: int)
    requires Cong(a0, x0, Q) && Cong(a1, x1, Q) && Cong(b0, y0, Q) && Cong(b1, y1, Q)
    ensures PairLow(a0, a1, b0, b1, c) == (x0 * y0 + c * (x1 * y1)) % Q
    ensures PairHigh(a0, a1, b0, b1) == (x0 * y1 + x1 * y0) % Q
  {
    CongMul(a0, x0, b0, y0, Q);
    CongMul(a1, x1, b1, y1, Q);
    CongReduce(a1 * b1, Q);
    CongMul(c, c, a1 * b1 % Q, x1 * y1, Q);
    CongAdd(a0 * b0, x0 * y0, c * (a1 * b1 % Q), c * (x1 * y1), Q);
    CongMul(a0, x0, b1, y1, Q);
    CongMul(a1, x1, b0, y0, Q);
    CongAdd(a0 * b1, x0 * y1, a1 * b0, x1 * y0, Q);
  }

  /** Two polynomials are equal when all their pairs are. */
  lemma EqualByPairs(a: Poly, b: Poly)
    requires forall i | 0 <= i < 128 :: PairsAgree(a, b, i)
    ensures a == b
  {
    forall p | 0 <= p < 256
      ensures a[p] == b[p]
    {
      assert PairsAgree(a, b, p / 2);
      assert p == 2 * (p / 2) || p == 2 * (p / 2) + 1;
    }
  }

  predicate PairsAgree(a: Poly, b: Poly, i: nat)
    requires i < 128
  {
    a[2 * i] == b[2 * i] && a[2 * i + 1] == b[2 * i + 1]
  }

  /** The transform turns the ring product into the pairwise product. */
  lemma NttOfProduct(f: Poly, g: Poly)
    ensures Ntt(PolyMul(f, g)) == BaseMul(Ntt(f), Ntt(g))
  {
    forall i | 0 <= i < 128
      ensures PairsAgree(Ntt(PolyMul(f, g)), BaseMul(Ntt(f), Ntt(g)), i)
    {
      NttOfProductAt(f, g, i);
    }
    EqualByPairs(Ntt(PolyMul(f, g)), BaseMul(Ntt(f), Ntt(g)));
  }

  lemma NttOfProductAt(f: Poly, g: Poly, i: nat)
    requires i < 128
    ensures PairsAgree(Ntt(PolyMul(f, g)), BaseMul(Ntt(f), Ntt(g)), i)
  {
    hide Gamma, Ntt, Strided, PairLow, PairHigh, PolyMul, BaseMul, Cong, Pow, Product;
    var c := Gamma(i);
    NttReduces(f, i);
    NttReduces(g, i);
    NttReduces(PolyMul(f, g), i);
    GammaPower(i);
    ProductReduces(f, g, c);
    ReducedProduct(f, g, 0, c);
    ReducedProduct(f, g, 1, c);
    BaseMulAt(Ntt(f), Ntt(g), i);
    ReducedPair(Strided(f, 0, 2, c), Strided(f, 1, 2, c), Strided(g, 0, 2, c), Strided(g, 1, 2, c),
      Strided(PolyMul(f, g), 0, 2, c), Strided(PolyMul(f, g), 1, 2, c), c);
  }

  lemma ReducedPair(f0: int, f1: int, g0: int, g1: int, p0: int, p1: int, c: int)
    requires Cong(p0, f0 * g0 + c * (f1 * g1), Q) && Cong(p1, f0 * g1 + f1 * g0, Q)
    ensures p0 % Q == PairLow(f0 % Q, f1 % Q, g0 % Q, g1 % Q, c)
    ensures p1 % Q == PairHigh(f0 % Q, f1 % Q, g0 % Q, g1 % Q)
  {
    CongReduce(f0, Q);
    CongReduce(f1, Q);
    CongReduce(g0, Q);
    CongReduce(g1, Q);
    PairCong(f0 % Q, f1 % Q, g0 % Q, g1 % Q, f0, f1, g0, g1, c);
  }

  lemma ReducedProduct(f: Poly, g: Poly, r: nat, c: int)
    ensures Cong(Strided(PolyMul(f, g), r, 2, c), Strided(Product(f, g), r, 2, c), Q)
  {
    forall t | 0 <= t < 256
      ensures Cong(PolyMul(f, g)[t], Product(f, g)[t], Q)
    {
      CongReduce(Convolve(f, g, t), Q);
    }
    StridedCongSeq(PolyMul(f, g), Product(f, g), r, c);
  }

  /** Multiplying through the transform gives the product modulo X^256 + 1. */
  lemma FastMultiplication(f: Poly, g: Poly)
    ensures Intt(BaseMul(Ntt(f), Ntt(g))) == PolyMul(f, g)
  {
    NttOfProduct(f, g);
    InttNtt(PolyMul(f, g));
  }

  // ----- addition, and the laws of the pairwise product -----

  function PolyAdd(a: Poly, b: Poly): Poly {
    seq(256, p requires 0 <= p < 256 => (a[p] + b[p]) % Q)
  }

  function PolySub(a: Poly, b: Poly): Poly {
    seq(256, p requires 0 <= p < 256 => (a[p] + Q - b[p]) % Q)
  }

  function Zero(): Poly {
    seq(256, _ => 0)
  }

  lemma NttOfSum(f: Poly, g: Poly)
    ensures Ntt(PolyAdd(f, g)) == PolyAdd(Ntt(f), Ntt(g))
    ensures Ntt(PolySub(f, g)) == PolySub(Ntt(f), Ntt(g))
  {
    forall i | 0 <= i < 128
      ensures PairsAgree(Ntt(PolyAdd(f, g)), PolyAdd(Ntt(f), Ntt(g)), i)
      ensures PairsAgree(Ntt(PolySub(f, g)), PolySub(Ntt(f), Ntt(g)), i)
    {
      NttOfSumAt(f, g, i);
    }
    EqualByPairs(Ntt(PolyAdd(f, g)), PolyAdd(Ntt(f), Ntt(g)));
    EqualByPairs(Ntt(PolySub(f, g)), PolySub(Ntt(f), Ntt(g)));
  }

  lemma NttOfSumAt(f: Poly, g: Poly, i: nat)
    requires i < 128
    ensures PairsAgree(Ntt(PolyAdd(f, g)), PolyAdd(Ntt(f), Ntt(g)), i)
    ensures PairsAgree(Ntt(PolySub(f, g)), PolySub(Ntt(f), Ntt(g)), i)
  {
    hide Gamma, Ntt, Strided;
    NttReduces(f, i);
    NttReduces(g, i);
    NttReduces(PolyAdd(f, g), i);
    NttReduces(PolySub(f, g), i);
    SumReduces(f, g, 0, Gamma(i));
    SumReduces(f, g, 1, Gamma(i));
  }

  lemma SumReduces(f: Poly, g: Poly, r: nat, c: int)
    ensures Strided(PolyAdd(f, g), r, 2, c) % Q == (Strided(f, r, 2, c) % Q + Strided(g, r, 2, c) % Q) % Q
    ensures Strided(PolySub(f, g), r, 2, c) % Q == (Strided(f, r, 2, c) % Q + Q - Strided(g, r, 2, c) % Q) % Q
  {
    var plus, minus := AddScaled(1, f, g), AddScaled(-1, g, f);
    StridedAddScaled(1, f, g, r, c);
    StridedAddScaled(-1, g, f, r, c);
    forall t | 0 <= t < 256
      ensures Cong(PolyAdd(f, g)[t], plus[t], Q) && Cong(PolySub(f, g)[t], minus[t], Q)
    {
      var x: int, y: int := f[t], g[t];
      CongReduce(x + y, Q);
      ShiftedDifference(x, y);
    }
    StridedCongSeq(PolyAdd(f, g), plus, r, c);
    StridedCongSeq(PolySub(f, g), minus, r, c);
    var s, t := Strided(f, r, 2, c), Strided(g, r, 2, c);
    CongReduce(s, Q);
    ButterflyMod(s % Q, s, t, t);
  }

  lemma InttOfSum(a: Poly, b: Poly)
    ensures Intt(PolyAdd(a, b)) == PolyAdd(Intt(a), Intt(b))
    ensures Intt(PolySub(a, b)) == PolySub(Intt(a), Intt(b))
  {
    NttIntt(a);
    NttIntt(b);
    NttOfSum(Intt(a), Intt(b));
    InttNtt(PolyAdd(Intt(a), Intt(b)));
    InttNtt(PolySub(Intt(a), Intt(b)));
  }

  lemma BaseMulCommutes(a: Poly, b: Poly)
    ensures BaseMul(a, b) == BaseMul(b, a)
  {
    hide Gamma, BaseMul;
    forall i | 0 <= i < 128
      ensures PairsAgree(BaseMul(a, b), BaseMul(b, a), i)
    {
      BaseMulAt(a, b, i);
      BaseMulAt(b, a, i);
      Swap(a[2 * i], b[2 * i]);
      Swap(a[2 * i + 1], b[2 * i + 1]);
      Swap(a[2 * i], b[2 * i + 1]);
      Swap(a[2 * i + 1], b[2 * i]);
    }
    EqualByPairs(BaseMul(a, b), BaseMul(b, a));
  }

  lemma Swap(x: int, y: int)
    ensures x * y == y * x
  {
  }

  lemma BaseMulAssociates(a: Poly, b: Poly, d: Poly)
    ensures BaseMul(BaseMul(a, b), d) == BaseMul(a, BaseMul(b, d))
  {
    var l, r := BaseMul(BaseMul(a, b), d), BaseMul(a, BaseMul(b, d));
    forall i | 0 <= i < 128
      ensures PairsAgree(l, r, i)
    {
      BaseMulAt(a, b, i);
      BaseMulAt(b, d, i);
      BaseMulAt(BaseMul(a, b), d, i);
      BaseMulAt(a, BaseMul(b, d), i);
      PairAssociates(a[2 * i], a[2 * i + 1], b[2 * i], b[2 * i + 1], d[2 * i], d[2 * i + 1], Gamma(i));
    }
    EqualByPairs(l, r);
  }

  lemma PairAssociates(a0: int, a1: int, b0: int, b1: int, d0: int, d1: int, c: int)
    ensures PairLow(PairLow(a0, a1, b0, b1, c), PairHigh(a0, a1, b0, b1), d0, d1, c)
      == PairLow(a0, a1, PairLow(b0, b1, d0, d1, c), PairHigh(b0, b1, d0, d1), c)
    ensures PairHigh(PairLow(a0, a1, b0, b1, c), PairHigh(a0, a1, b0, b1), d0, d1)
      == PairHigh(a0, a1, PairLow(b0, b1, d0, d1, c), PairHigh(b0, b1, d0, d1))
  {
    PairCong(a0, a1, b0, b1, a0, a1, b0, b1, c);
    PairCong(b0, b1, d0, d1, b0, b1, d0, d1, c);
    var l0, l1 := a0 * b0 + c * (a1 * b1), a0 * b1 + a1 * b0;
    var r0, r1 := b0 * d0 + c * (b1 * d1), b0 * d1 + b1 * d0;
    CongReduce(l0, Q);
    CongReduce(l1, Q);
    CongReduce(r0, Q);
    CongReduce(r1, Q);
    PairCong(l0 % Q, l1 % Q, d0, d1, l0, l1, d0, d1, c);
    PairCong(a0, a1, r0 % Q, r1 % Q, a0, a1, r0, r1, c);
    PairExpand(a0, a1, b0, b1, d0, d1, c);
  }

  lemma PairExpand(a0: int, a1: int, b0: int, b1: int, d0: int, d1: int, c: int)
    ensures (a0 * b0 + c * (a1 * b1)) * d0 + c * ((a0 * b1 + a1 * b0) * d1)
      == a0 * (b0 * d0 + c * (b1 * d1)) + c * (a1 * (b0 * d1 + b1 * d0))
    ensures (a0 * b0 + c * (a1 * b1)) * d1 + (a0 * b1 + a1 * b0) * d0
      == a0 * (b0 * d1 + b1 * d0) + a1 * (b0 * d0 + c * (b1 * d1))
  {
    ExpandLeft(a0, a1, b0, b1, d0, c);
    ExpandLeft(a0, a1, b0, b1, d1, c);
    ExpandRight(a0, b0, b1, d0, d1, c);
    ExpandRight(a1, b0, b1, d0, d1, c);
    Distribute(a0 * (b1 * d1), a1 * (b0 * d1), c);
    Distribute(a1 * (b0 * d1), a1 * (b1 * d0), c);
  }

  lemma ExpandLeft(a0: int, a1: int, b0: int, b1: int, d: int, c: int)
    ensures (a0 * b0 + c * (a1 * b1)) * d == a0 * (b0 * d) + c * (a1 * (b1 * d))
    ensures (a0 * b1 + a1 * b0) * d == a0 * (b1 * d) + a1 * (b0 * d)
  {
    Distribute(a0 * b0, c * (a1 * b1), d);
    Distribute(a0 * b1, a1 * b0, d);
    Associate(c, a1 * b1, d);
    Associate(a0, b0, d);
    Associate(a1, b1, d);
    Associate(a0, b1, d);
    Associate(a1, b0, d);
  }

  lemma ExpandRight(a: int, b0: int, b1: int, d0: int, d1: int, c: int)
    ensures a * (b0 * d0 + c * (b1 * d1)) == a * (b0 * d0) + c * (a * (b1 * d1))
    ensures a * (b0 * d1 + b1 * d0) == a * (b0 * d1) + a * (b1 * d0)
  {
    Distribute(b0 * d0, c * (b1 * d1), a);
    Distribute(b0 * d1, b1 * d0, a);
    Associate(a, c, b1 * d1);
  }

  lemma BaseMulDistributes(a: Poly, b: Poly, d: Poly)
    ensures BaseMul(PolyAdd(a, b), d) == PolyAdd(BaseMul(a, d), BaseMul(b, d))
  {
    var l, r := BaseMul(PolyAdd(a, b), d), PolyAdd(BaseMul(a, d), BaseMul(b, d));
    forall i | 0 <= i < 128
      ensures PairsAgree(l, r, i)
    {
      BaseMulDistributesAt(a, b, d, i);
    }
    EqualByPairs(l, r);
  }

  lemma BaseMulDistributesAt(a: Poly, b: Poly, d: Poly, i: nat)
    requires i < 128
    ensures PairsAgree(BaseMul(PolyAdd(a, b), d), PolyAdd(BaseMul(a, d), BaseMul(b, d)), i)
  {
    hide Gamma, BaseMul, PairLow, PairHigh;
    BaseMulAt(a, d, i);
    BaseMulAt(b, d, i);
    BaseMulAt(PolyAdd(a, b), d, i);
    PairDistributes(a[2 * i], a[2 * i + 1], b[2 * i], b[2 * i + 1], d[2 * i], d[2 * i + 1], Gamma(i));
  }

  lemma PairDistributes(a0: int, a1: int, b0: int, b1: int, d0: int, d1: int, c: int)
    ensures PairLow((a0 + b0) % Q, (a1 + b1) % Q, d0, d1, c)
      == (PairLow(a0, a1, d0, d1, c) + PairLow(b0, b1, d0, d1, c)) % Q
    ensures PairHigh((a0 + b0) % Q, (a1 + b1) % Q, d0, d1)
      == (PairHigh(a0, a1, d0, d1) + PairHigh(b0, b1, d0, d1)) % Q
  {
    hide *;
    PairValue(a0, a1, d0, d1, c);
    PairValue(b0, b1, d0, d1, c);
    PairValue(a0 + b0, a1 + b1, d0, d1, c);
    SumOfReduced(a0 * d0 + c * (a1 * d1), b0 * d0 + c * (b1 * d1));
    SumOfReduced(a0 * d1 + a1 * d0, b0 * d1 + b1 * d0);
    PairSum(a0, a1, b0, b1, d0, d1, c);
  }

  /** Pair products, with the left operand reduced first or not at all. */
  lemma PairValue(a0: int, a1: int, d0: int, d1: int, c: int)
    ensures PairLow(a0, a1, d0, d1, c) == (a0 * d0 + c * (a1 * d1)) % Q
    ensures PairHigh(a0, a1, d0, d1) == (a0 * d1 + a1 * d0) % Q
    ensures PairLow(a0 % Q, a1 % Q, d0, d1, c) == (a0 * d0 + c * (a1 * d1)) % Q
    ensures PairHigh(a0 % Q, a1 % Q, d0, d1) == (a0 * d1 + a1 * d0) % Q
  {
    hide PairLow, PairHigh;
    CongReduce(a0, Q);
    CongReduce(a1, Q);
    PairCong(a0, a1, d0, d1, a0, a1, d0, d1, c);
    PairCong(a0 % Q, a1 % Q, d0, d1, a0, a1, d0, d1, c);
  }

  lemma SumOfReduced(x: int, y: int)
    ensures (x % Q + y % Q) % Q == (x + y) % Q
  {
    CongReduce(x, Q);
    ButterflyMod(x % Q, x, y, y);
  }

  lemma PairSum(a0: int, a1: int, b0: int, b1: int, d0: int, d1: int, c: int)
    ensures (a0 + b0) * d0 + c * ((a1 + b1) * d1)
      == (a0 * d0 + c * (a1 * d1)) + (b0 * d0 + c * (b1 * d1))
    ensures (a0 + b0) * d1 + (a1 + b1) * d0 == (a0 * d1 + a1 * d0) + (b0 * d1 + b1 * d0)
  {
    Distribute(a0, b0, d0);
    Distribute(a1, b1, d1);
    Distribute(a0, b0, d1);
    Distribute(a1, b1, d0);
    Distribute(a1 * d1, b1 * d1, c);
  }
}
