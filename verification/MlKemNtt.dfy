/** The number-theoretic transform of ML-KEM and its inverse.

    `Ntt` and `Intt` follow the layers of the code block by block.  The lemmas
    give them their meaning: pair i of `Ntt(f)` is f reduced modulo
    X^2 - Gamma(i), and each transform undoes the other. */
module MlKemNtt {
  import opened ModArith
  import opened MlKemField

  /** The coefficient arithmetic of the two butterflies. */
  function Lo(a: Zq, b: Zq, z: Zq): Zq {
    (a + z * b % Q) % Q
  }

  function Hi(a: Zq, b: Zq, z: Zq): Zq {
    (a + Q - z * b % Q) % Q
  }

  function InvLo(a: Zq, b: Zq): Zq {
    (a + b) % Q
  }

  function InvHi(a: Zq, b: Zq, z: Zq): Zq {
    z * ((b + Q - a) % Q) % Q
  }

  /** One forward block: (a, b) becomes (a + z b, a - z b), `len` apart. */
  function Butterfly(s: seq<Zq>, z: Zq, len: nat): (r: seq<Zq>)
    requires |s| == 2 * len
    ensures |r| == |s|
  {
    seq(len, j requires 0 <= j < len => Lo(s[j], s[j + len], z))
    + seq(len, j requires 0 <= j < len => Hi(s[j], s[j + len], z))
  }

  /** One inverse block: (a, b) becomes (a + b, z (b - a)). */
  function InvButterfly(s: seq<Zq>, z: Zq, len: nat): (r: seq<Zq>)
    requires |s| == 2 * len
    ensures |r| == |s|
  {
    seq(len, j requires 0 <= j < len => InvLo(s[j], s[j + len]))
    + seq(len, j requires 0 <= j < len => InvHi(s[j], s[j + len], z))
  }

  /** Forward blocks side by side, with roots Zeta(k), Zeta(k + 1), ... */
  function Blocks(f: seq<Zq>, len: nat, k: nat): (r: seq<Zq>)
    requires 1 <= len
    ensures |r| == |f|
    decreases |f|
  {
    if |f| < 2 * len then f
    else Butterfly(f[..2 * len], Zeta(k), len) + Blocks(f[2 * len..], len, k + 1)
  }

  /** Inverse blocks side by side, with roots Zeta(i), Zeta(i - 1), ... */
  function InvBlocks(f: seq<Zq>, len: nat, i: int): (r: seq<Zq>)
    requires 1 <= len
    ensures |r| == |f|
    decreases |f|
  {
    if |f| < 2 * len || i < 0 then f
    else InvButterfly(f[..2 * len], Zeta(i), len) + InvBlocks(f[2 * len..], len, i - 1)
  }

  /** The length of `m` blocks of width `w`. */
  function Span(m: nat, w: nat): nat {
    if m == 0 then 0 else w + Span(m - 1, w)
  }

  lemma {:induction false} SpanIsProduct(m: nat, w: nat)
    ensures Span(m, w) == m * w
  {
    if m != 0 {
      SpanIsProduct(m - 1, w);
      assert m * w == w + (m - 1) * w;
    }
  }

  /** Half the block width of the layer that has `n` blocks. */
  function Width(n: nat): nat
    requires IsLayerSize(n)
  {
    128 / n
  }

  lemma WidthFits(n: nat)
    requires IsLayerSize(n)
    ensures Span(n, 2 * Width(n)) == 256 && 2 <= Width(n) <= 128
  {
    SpanIsProduct(n, 2 * Width(n));
    assert n * (2 * Width(n)) == 256;
  }

  function Layer(f: Poly, n: nat): (r: Poly)
    requires IsLayerSize(n)
  {
    WidthFits(n);
    Blocks(f, Width(n), n)
  }

  function InvLayer(f: Poly, n: nat): (r: Poly)
    requires IsLayerSize(n)
  {
    WidthFits(n);
    InvBlocks(f, Width(n), 2 * n - 1)
  }

  /** The forward layers of `n`, 2n, ..., 64 blocks. */
  function NttFrom(f: Poly, n: nat): (r: Poly)
    requires IsLayerSize(n) || n == 128
    decreases 128 - n
  {
    if n == 128 then f else NttFrom(Layer(f, n), 2 * n)
  }

  /** The inverse layers of 64, ..., 2n, `n` blocks. */
  function InttTo(f: Poly, n: nat): (r: Poly)
    requires IsLayerSize(n) || n == 128
    decreases 128 - n
  {
    if n == 128 then f else InvLayer(InttTo(f, 2 * n), n)
  }

  function Scale(c: int, s: seq<Zq>): (r: seq<Zq>)
    ensures |r| == |s|
  {
    seq(|s|, j requires 0 <= j < |s| => c * s[j] % Q)
  }

  function Ntt(f: Poly): Poly {
    NttFrom(f, 1)
  }

  /** 3303 is the inverse of 128 modulo q. */
  function Intt(f: Poly): Poly {
    Scale(3303, InttTo(f, 1))
  }

  // ----- the meaning of the forward transform -----

  /** f[r] + c f[r + n] + c^2 f[r + 2n] + ...: coefficient r of f mod X^n - c. */
  function Strided(f: seq<int>, r: nat, n: nat, c: int): int
    requires 1 <= n
    decreases |f| - r
  {
    if r >= |f| then 0 else f[r] + c * Strided(f, r + n, n, c)
  }

  lemma {:induction false} StridedSplit(f: seq<int>, r: nat, n: nat, z: int)
    requires 1 <= n
    ensures Strided(f, r, n, z) == Strided(f, r, 2 * n, z * z) + z * Strided(f, r + n, 2 * n, z * z)
    decreases |f| - r
  {
    if r < |f| {
      StridedSplit(f, r + n, n, z);
      var a := Strided(f, r + n, 2 * n, z * z);
      var b := Strided(f, r + n + n, 2 * n, z * z);
      assert Strided(f, r, n, z) == f[r] + z * (a + z * b);
      Distribute(a, z * b, z);
      Associate(z, z, b);
    }
  }

  lemma {:induction false} StridedCong(f: seq<int>, r: nat, n: nat, c: int, d: int)
    requires 1 <= n && Cong(c, d, Q)
    ensures Cong(Strided(f, r, n, c), Strided(f, r, n, d), Q)
    decreases |f| - r
  {
    if r < |f| {
      StridedCong(f, r + n, n, c, d);
      var s, t := Strided(f, r + n, n, c), Strided(f, r + n, n, d);
      CongMul(c, d, s, t, Q);
      CongAdd(f[r], f[r], c * s, d * t, Q);
    }
  }

  predicate BlockRep(b: seq<Zq>, f: Poly, n: nat, k: nat)
    requires 1 <= n && 1 <= k
  {
    |b| == n && forall r | 0 <= r < n :: b[r] == Strided(f, r, n, NodeConst(k)) % Q
  }

  /** `g` is blocks of `n` coefficients holding f reduced at nodes k, k + 1, ... */
  predicate Rep(g: seq<Zq>, f: Poly, n: nat, k: nat)
    requires 1 <= n && 1 <= k
    decreases |g|
  {
    g == [] || (n <= |g| && BlockRep(g[..n], f, n, k) && Rep(g[n..], f, n, k + 1))
  }

  /** One coefficient of one butterfly: the two halves of a reduced block. */
  lemma SplitCoefficient(f: Poly, r: nat, n: nat, k: nat, a: Zq, b: Zq)
    requires 1 <= n && 1 <= k < 128
    requires a == Strided(f, r, 2 * n, NodeConst(k)) % Q
    requires b == Strided(f, r + n, 2 * n, NodeConst(k)) % Q
    ensures Lo(a, b, Zeta(k)) == Strided(f, r, n, NodeConst(2 * k)) % Q
    ensures Hi(a, b, Zeta(k)) == Strided(f, r, n, NodeConst(2 * k + 1)) % Q
  {
    AtSquare(f, r, 2 * n, k, a);
    AtSquare(f, r + n, 2 * n, k, b);
    SplitSums(f, r, n, Zeta(k), a, b);
    NodeChildren(k);
  }

  lemma SplitSums(f: Poly, r: nat, n: nat, z: Zq, a: Zq, b: Zq)
    requires 1 <= n
    requires Cong(a, Strided(f, r, 2 * n, z * z), Q)
    requires Cong(b, Strided(f, r + n, 2 * n, z * z), Q)
    ensures Lo(a, b, z) == Strided(f, r, n, z) % Q
    ensures Hi(a, b, z) == Strided(f, r, n, 0 - z) % Q
  {
    var t := Strided(f, r + n, 2 * n, z * z);
    CongMul(z, z, b, t, Q);
    ButterflyMod(a, Strided(f, r, 2 * n, z * z), z * b, z * t);
    StridedSplit(f, r, n, z);
    StridedSplit(f, r, n, 0 - z);
    Negate(z, t);
  }

  /** A reduced coefficient at node k, expressed with the root of the node. */
  lemma AtSquare(f: Poly, r: nat, n: nat, k: nat, a: Zq)
    requires 1 <= n && 1 <= k < 128
    requires a == Strided(f, r, n, NodeConst(k)) % Q
    ensures Cong(a, Strided(f, r, n, Zeta(k) * Zeta(k)), Q)
  {
    NodeSquare(k);
    StridedCong(f, r, n, Zeta(k) * Zeta(k), NodeConst(k));
    CongReduce(Strided(f, r, n, NodeConst(k)), Q);
  }

  lemma NodeChildren(k: nat)
    requires 1 <= k
    ensures NodeConst(2 * k) == Zeta(k) && NodeConst(2 * k + 1) == 0 - Zeta(k)
  {
    assert 2 * k / 2 == k && (2 * k + 1) / 2 == k;
  }

  lemma Negate(z: int, t: int)
    ensures (0 - z) * (0 - z) == z * z && (0 - z) * t == -(z * t)
  {
  }

  /** Adding and subtracting with the product reduced first. */
  lemma ButterflyMod(a: int, s: int, p: int, q: int)
    requires Cong(a, s, Q) && Cong(p, q, Q)
    ensures (a + p % Q) % Q == (s + q) % Q
    ensures (a + Q - p % Q) % Q == (s - q) % Q
  {
    CongReduce(p, Q);
    CongAdd(a, s, p % Q, q, Q);
    CongSub(a, s, p % Q, q, Q);
    CongFrom(a + Q - p % Q, a - p % Q, 1, Q);
  }

  lemma ButterflySplits(b: seq<Zq>, f: Poly, n: nat, k: nat)
    requires 1 <= n && 1 <= k < 128 && BlockRep(b, f, 2 * n, k)
    ensures BlockRep(Butterfly(b, Zeta(k), n)[..n], f, n, 2 * k)
    ensures BlockRep(Butterfly(b, Zeta(k), n)[n..], f, n, 2 * k + 1)
  {
    var lo, hi := Butterfly(b, Zeta(k), n)[..n], Butterfly(b, Zeta(k), n)[n..];
    forall r | 0 <= r < n
      ensures lo[r] == Strided(f, r, n, NodeConst(2 * k)) % Q
      ensures hi[r] == Strided(f, r, n, NodeConst(2 * k + 1)) % Q
    {
      SplitCoefficient(f, r, n, k, b[r], b[r + n]);
    }
  }

  lemma {:induction false} BlocksSplit(g: seq<Zq>, f: Poly, n: nat, k: nat, m: nat)
    requires 1 <= n && 1 <= k && k + m <= 128 && |g| == Span(m, 2 * n) && Rep(g, f, 2 * n, k)
    ensures Rep(Blocks(g, n, k), f, n, 2 * k)
    decreases m
  {
    if m != 0 {
      var b := Butterfly(g[..2 * n], Zeta(k), n);
      ButterflySplits(g[..2 * n], f, n, k);
      BlocksSplit(g[2 * n..], f, n, k + 1, m - 1);
      RepCons2(b[..n], b[n..], Blocks(g[2 * n..], n, k + 1), f, n, 2 * k);
      assert b[..n] + b[n..] == b;
    }
  }

  lemma RepCons2(lo: seq<Zq>, hi: seq<Zq>, rest: seq<Zq>, f: Poly, n: nat, k: nat)
    requires 1 <= n && 1 <= k
    requires BlockRep(lo, f, n, k) && BlockRep(hi, f, n, k + 1) && Rep(rest, f, n, k + 2)
    ensures Rep(lo + hi + rest, f, n, k)
  {
    var g := lo + hi + rest;
    assert g[..n] == lo && g[n..] == hi + rest;
    assert g[n..][..n] == hi && g[n..][n..] == rest;
  }

  /** Block width on entry to the layer of `n` blocks; 2 after the last layer. */
  function BlockWidth(n: nat): (w: nat)
    requires IsLayerSize(n) || n == 128
    ensures 1 <= w
  {
    if n == 128 then 2 else
    WidthFits(n);
    2 * Width(n)
  }

  lemma {:induction false} NttFromRep(g: Poly, f: Poly, n: nat)
    requires IsLayerSize(n) || n == 128
    requires Rep(g, f, BlockWidth(n), n)
    ensures Rep(NttFrom(g, n), f, 2, 128)
    decreases 128 - n
  {
    if n != 128 {
      WidthFits(n);
      BlocksSplit(g, f, Width(n), n, n);
      WidthHalves(n);
      NttFromRep(Layer(g, n), f, 2 * n);
    }
  }

  lemma WidthHalves(n: nat)
    requires IsLayerSize(n)
    ensures IsLayerSize(2 * n) || 2 * n == 128
    ensures BlockWidth(2 * n) == Width(n)
  {
  }

  lemma {:induction false} RepAt(g: seq<Zq>, f: Poly, k: nat, i: nat)
    requires 1 <= k && 2 * i < |g| && Rep(g, f, 2, k)
    ensures 2 * i + 1 < |g|
    ensures g[2 * i] == Strided(f, 0, 2, NodeConst(k + i)) % Q
    ensures g[2 * i + 1] == Strided(f, 1, 2, NodeConst(k + i)) % Q
    decreases i
  {
    hide NodeConst;
    if i == 0 {
      assert g[0] == g[..2][0] && g[1] == g[..2][1];
    } else {
      RepAt(g[2..], f, k + 1, i - 1);
    }
  }

  /** Pair i of the transform is f modulo X^2 - Gamma(i). */
  lemma NttReduces(f: Poly, i: nat)
    requires i < 128
    ensures Ntt(f)[2 * i] == Strided(f, 0, 2, Gamma(i)) % Q
    ensures Ntt(f)[2 * i + 1] == Strided(f, 1, 2, Gamma(i)) % Q
  {
    RootRep(f);
    NttFromRep(f, f, 1);
    RepAt(Ntt(f), f, 128, i);
    LeafConst(i);
    StridedCong(f, 0, 2, NodeConst(128 + i), Gamma(i));
    StridedCong(f, 1, 2, NodeConst(128 + i), Gamma(i));
  }

  lemma RootRep(f: Poly)
    ensures Rep(f, f, 256, 1)
  {
    assert f[..256] == f && f[256..] == [];
    forall r: nat | r < 256
      ensures f[r] == Strided(f, r, 256, NodeConst(1)) % Q
    {
      assert Strided(f, r + 256, 256, NodeConst(1)) == 0;
    }
  }

  // ----- the transforms undo each other -----

  /** One forward block followed by the mirrored inverse block doubles. */
  lemma UndoForward(a: Zq, b: Zq, z: Zq, y: Zq)
    requires Cong(z * y, -1, Q)
    ensures InvLo(Lo(a, b, z), Hi(a, b, z)) == 2 * a % Q
    ensures InvHi(Lo(a, b, z), Hi(a, b, z), y) == 2 * b % Q
  {
    var p := z * b;
    ButterflyMod(a, a, p, p);
    CongReduce(a + p, Q);
    CongReduce(a - p, Q);
    CongAdd(Lo(a, b, z), a + p, Hi(a, b, z), a - p, Q);
    CongSub(Hi(a, b, z), a - p, Lo(a, b, z), a + p, Q);
    TurnBack(Hi(a, b, z), Lo(a, b, z), b, z, y);
  }

  lemma TurnBack(hi: Zq, lo: Zq, b: Zq, z: Zq, y: Zq)
    requires Cong(z * y, -1, Q) && Cong(hi - lo, -2 * (z * b), Q)
    ensures y * ((hi + Q - lo) % Q) % Q == 2 * b % Q
  {
    ShiftedDifference(hi, lo);
    CongMul(y, y, (hi + Q - lo) % Q, -2 * (z * b), Q);
    CongMul(z * y, -1, -2 * b, -2 * b, Q);
    TurnProduct(y, z, b);
  }

  lemma TurnProduct(y: int, z: int, b: int)
    ensures y * (-2 * (z * b)) == (z * y) * (-2 * b)
  {
    Associate(y, z, b);
    Associate(z, y, -2 * b);
    Associate(y, -2, z * b);
    Associate(y, -2, b);
    Associate(z, -2, y * b);
  }

  lemma ShiftedDifference(x: int, y: int)
    ensures (x + Q - y) % Q == (x - y) % Q
    ensures Cong((x + Q - y) % Q, x - y, Q)
  {
    CongFrom(x + Q - y, x - y, 1, Q);
    CongReduce(x - y, Q);
  }

  /** One inverse block followed by the mirrored forward block doubles. */
  lemma UndoInverse(a: Zq, b: Zq, z: Zq, y: Zq)
    requires Cong(z * y, -1, Q)
    ensures Lo(InvLo(a, b), InvHi(a, b, y), z) == 2 * a % Q
    ensures Hi(InvLo(a, b), InvHi(a, b, y), z) == 2 * b % Q
  {
    var lo, hi := (a + b) % Q, y * ((b + Q - a) % Q) % Q;
    CongReduce(a + b, Q);
    ShiftedDifference(b, a);
    CongMul(y, y, (b + Q - a) % Q, b - a, Q);
    CongReduce(y * ((b + Q - a) % Q), Q);
    CongMul(z, z, hi, y * (b - a), Q);
    Associate(z, y, b - a);
    CongMul(z * y, -1, b - a, b - a, Q);
    ButterflyMod(lo, a + b, z * hi, -1 * (b - a));
  }

  lemma InvButterflyUndoes(s: seq<Zq>, z: Zq, y: Zq, len: nat)
    requires |s| == 2 * len && Cong(z * y, -1, Q)
    ensures InvButterfly(Butterfly(s, z, len), y, len) == Scale(2, s)
  {
    var got, want := InvButterfly(Butterfly(s, z, len), y, len), Scale(2, s);
    forall p | 0 <= p < 2 * len
      ensures got[p] == want[p]
    {
      var j := if p < len then p else p - len;
      UndoForward(s[j], s[j + len], z, y);
    }
  }

  lemma ButterflyUndoes(s: seq<Zq>, z: Zq, y: Zq, len: nat)
    requires |s| == 2 * len && Cong(z * y, -1, Q)
    ensures Butterfly(InvButterfly(s, y, len), z, len) == Scale(2, s)
  {
    var got, want := Butterfly(InvButterfly(s, y, len), z, len), Scale(2, s);
    forall p | 0 <= p < 2 * len
      ensures got[p] == want[p]
    {
      var j := if p < len then p else p - len;
      UndoInverse(s[j], s[j + len], z, y);
    }
  }

  lemma BlocksCons(b: seq<Zq>, t: seq<Zq>, len: nat, k: nat)
    requires 1 <= len && |b| == 2 * len
    ensures Blocks(b + t, len, k) == Butterfly(b, Zeta(k), len) + Blocks(t, len, k + 1)
  {
    assert (b + t)[..2 * len] == b && (b + t)[2 * len..] == t;
  }

  lemma InvBlocksCons(b: seq<Zq>, t: seq<Zq>, len: nat, i: nat)
    requires 1 <= len && |b| == 2 * len
    ensures InvBlocks(b + t, len, i) == InvButterfly(b, Zeta(i), len) + InvBlocks(t, len, i - 1)
  {
    assert (b + t)[..2 * len] == b && (b + t)[2 * len..] == t;
  }

  /** Nodes k, k + 1, ... meet, at i, i - 1, ..., roots whose product is -1. */
  predicate Mirrored(k: nat, i: int, m: nat)
    decreases m
  {
    m == 0 || (0 <= i && Cong(Zeta(k) * Zeta(i), -1, Q) && Mirrored(k + 1, i - 1, m - 1))
  }

  lemma {:induction false} LayerMirrored(n: nat, k: nat, i: int, m: nat)
    requires IsLayerSize(n) && n <= k && k + m == 2 * n && k + i == 3 * n - 1
    ensures Mirrored(k, i, m)
    decreases m
  {
    hide Zeta;
    if m != 0 {
      MirrorRoots(n, k, i);
      LayerMirrored(n, k + 1, i - 1, m - 1);
    }
  }

  /** Blocks k, ..., k + m - 1 of a layer: both orders double. */
  lemma {:induction false} BlocksUndo(f: seq<Zq>, len: nat, k: nat, i: int, m: nat)
    requires 1 <= len && |f| == Span(m, 2 * len) && Mirrored(k, i, m)
    ensures InvBlocks(Blocks(f, len, k), len, i) == Scale(2, f)
    ensures Blocks(InvBlocks(f, len, i), len, k) == Scale(2, f)
    decreases m
  {
    hide Zeta;
    if m == 0 {
      assert f == [];
    } else {
      var b, t := f[..2 * len], f[2 * len..];
      assert f == b + t;
      BlocksUndo(t, len, k + 1, i - 1, m - 1);
      OneBlockUndoes(b, t, len, k, i);
    }
  }

  lemma OneBlockUndoes(b: seq<Zq>, t: seq<Zq>, len: nat, k: nat, i: nat)
    requires 1 <= len && |b| == 2 * len && Cong(Zeta(k) * Zeta(i), -1, Q)
    requires InvBlocks(Blocks(t, len, k + 1), len, i - 1) == Scale(2, t)
    requires Blocks(InvBlocks(t, len, i - 1), len, k + 1) == Scale(2, t)
    ensures InvBlocks(Blocks(b + t, len, k), len, i) == Scale(2, b + t)
    ensures Blocks(InvBlocks(b + t, len, i), len, k) == Scale(2, b + t)
  {
    hide Zeta;
    BlocksCons(b, t, len, k);
    InvBlocksCons(b, t, len, i);
    InvBlocksCons(Butterfly(b, Zeta(k), len), Blocks(t, len, k + 1), len, i);
    BlocksCons(InvButterfly(b, Zeta(i), len), InvBlocks(t, len, i - 1), len, k);
    InvButterflyUndoes(b, Zeta(k), Zeta(i), len);
    ButterflyUndoes(b, Zeta(k), Zeta(i), len);
    assert Scale(2, b + t) == Scale(2, b) + Scale(2, t);
  }

  lemma LayersUndo(f: Poly, n: nat)
    requires IsLayerSize(n)
    ensures InvLayer(Layer(f, n), n) == Scale(2, f)
    ensures Layer(InvLayer(f, n), n) == Scale(2, f)
  {
    hide Zeta, Scale, Width, Blocks, InvBlocks;
    WidthFits(n);
    LayerMirrored(n, n, 2 * n - 1, n);
    BlocksUndo(f, Width(n), n, 2 * n - 1, n);
  }

  /** A scaled sum may be reduced before or after scaling. */
  lemma ScaleReduced(c: int, x: int, y: int)
    requires x == c * y
    ensures x % Q == c * (y % Q) % Q
  {
    CongReduce(y, Q);
    CongMul(c, c, y % Q, y, Q);
  }

  lemma ScaleForward(a: Zq, b: Zq, z: Zq, c: int)
    ensures Lo(c * a % Q, c * b % Q, z) == c * Lo(a, b, z) % Q
    ensures Hi(c * a % Q, c * b % Q, z) == c * Hi(a, b, z) % Q
  {
    CongReduce(c * a, Q);
    ScaledProduct(z, c, b);
    ButterflyMod(c * a % Q, c * a, z * (c * b % Q), c * (z * b));
    ButterflyMod(a, a, z * b, z * b);
    Distribute(a, z * b, c);
    ScaleReduced(c, c * a + c * (z * b), a + z * b);
    ScaleReduced(c, c * a - c * (z * b), a - z * b);
  }

  lemma ScaledProduct(z: int, c: int, b: int)
    ensures Cong(z * (c * b % Q), c * (z * b), Q)
  {
    CongReduce(c * b, Q);
    CongMul(z, z, c * b % Q, c * b, Q);
    Associate(z, c, b);
  }

  lemma ScaleInverse(a: Zq, b: Zq, y: Zq, c: int)
    ensures InvLo(c * a % Q, c * b % Q) == c * InvLo(a, b) % Q
    ensures InvHi(c * a % Q, c * b % Q, y) == c * InvHi(a, b, y) % Q
  {
    CongReduce(c * a, Q);
    ButterflyMod(c * a % Q, c * a, c * b, c * b);
    Distribute(a, b, c);
    ScaleReduced(c, c * a + c * b, a + b);
    ScaleDifference(a, b, c);
    ScaledProduct(y, c, b - a);
    ShiftedDifference(b, a);
    CongMul(y, y, (b + Q - a) % Q, b - a, Q);
    ScaleReduced(c, c * (y * (b - a)), y * (b - a));
  }

  lemma ScaleDifference(a: int, b: int, c: int)
    ensures (c * b % Q + Q - c * a % Q) % Q == c * (b - a) % Q
  {
    CongReduce(c * b, Q);
    ButterflyMod(c * b % Q, c * b, c * a, c * a);
    Distribute(b, a, c);
  }

  lemma ScaleButterfly(c: int, s: seq<Zq>, z: Zq, len: nat)
    requires |s| == 2 * len
    ensures Butterfly(Scale(c, s), z, len) == Scale(c, Butterfly(s, z, len))
  {
    var got, want := Butterfly(Scale(c, s), z, len), Scale(c, Butterfly(s, z, len));
    forall p | 0 <= p < 2 * len
      ensures got[p] == want[p]
    {
      var j := if p < len then p else p - len;
      ScaleForward(s[j], s[j + len], z, c);
    }
  }

  lemma ScaleInvButterfly(c: int, s: seq<Zq>, y: Zq, len: nat)
    requires |s| == 2 * len
    ensures InvButterfly(Scale(c, s), y, len) == Scale(c, InvButterfly(s, y, len))
  {
    var got, want := InvButterfly(Scale(c, s), y, len), Scale(c, InvButterfly(s, y, len));
    forall p | 0 <= p < 2 * len
      ensures got[p] == want[p]
    {
      var j := if p < len then p else p - len;
      ScaleInverse(s[j], s[j + len], y, c);
    }
  }

  lemma {:induction false} ScaleBlocks(c: int, f: seq<Zq>, len: nat, k: nat)
    requires 1 <= len
    ensures Blocks(Scale(c, f), len, k) == Scale(c, Blocks(f, len, k))
    decreases |f|
  {
    hide Zeta;
    if |f| >= 2 * len {
      var b, t := f[..2 * len], f[2 * len..];
      assert Scale(c, f)[..2 * len] == Scale(c, b) && Scale(c, f)[2 * len..] == Scale(c, t);
      ScaleButterfly(c, b, Zeta(k), len);
      ScaleBlocks(c, t, len, k + 1);
    }
  }

  lemma {:induction false} ScaleInvBlocks(c: int, f: seq<Zq>, len: nat, i: int)
    requires 1 <= len
    ensures InvBlocks(Scale(c, f), len, i) == Scale(c, InvBlocks(f, len, i))
    decreases |f|
  {
    hide Zeta;
    if |f| >= 2 * len && i >= 0 {
      var b, t := f[..2 * len], f[2 * len..];
      assert Scale(c, f)[..2 * len] == Scale(c, b) && Scale(c, f)[2 * len..] == Scale(c, t);
      ScaleInvButterfly(c, b, Zeta(i), len);
      ScaleInvBlocks(c, t, len, i - 1);
    }
  }

  lemma ScaleScale(c: int, d: int, s: seq<Zq>)
    ensures Scale(c, Scale(d, s)) == Scale(c * d, s)
  {
    forall j | 0 <= j < |s|
      ensures Scale(c, Scale(d, s))[j] == Scale(c * d, s)[j]
    {
      ScaleReduced(c, c * d * s[j], d * s[j]);
    }
  }

  lemma {:induction false} ScaleNttFrom(c: int, f: Poly, n: nat)
    requires IsLayerSize(n) || n == 128
    ensures NttFrom(Scale(c, f), n) == Scale(c, NttFrom(f, n))
    decreases 128 - n
  {
    if n != 128 {
      WidthFits(n);
      ScaleBlocks(c, f, Width(n), n);
      ScaleNttFrom(c, Layer(f, n), 2 * n);
    }
  }

  lemma ScaleInvLayer(c: int, f: Poly, n: nat)
    requires IsLayerSize(n)
    ensures InvLayer(Scale(c, f), n) == Scale(c, InvLayer(f, n))
  {
    WidthFits(n);
    ScaleInvBlocks(c, f, Width(n), 2 * n - 1);
  }

  /** The factor that the inverse layers of 64, ..., `n` blocks leave behind. */
  function Gain(n: nat): int
    requires IsLayerSize(n) || n == 128
    decreases 128 - n
  {
    if n == 128 then 1 else 2 * Gain(2 * n)
  }

  lemma {:induction false} InverseAfterForward(f: Poly, n: nat)
    requires IsLayerSize(n) || n == 128
    ensures InttTo(NttFrom(f, n), n) == Scale(Gain(n), f)
    decreases 128 - n
  {
    if n == 128 {
      assert Scale(1, f) == f;
    } else {
      InverseAfterForward(Layer(f, n), 2 * n);
      UndoScaledLayer(Gain(2 * n), f, n);
    }
  }

  lemma UndoScaledLayer(c: int, f: Poly, n: nat)
    requires IsLayerSize(n)
    ensures InvLayer(Scale(c, Layer(f, n)), n) == Scale(2 * c, f)
  {
    ScaleInvLayer(c, Layer(f, n), n);
    LayersUndo(f, n);
    ScaleScale(c, 2, f);
  }

  lemma {:induction false} ForwardAfterInverse(g: Poly, n: nat)
    requires IsLayerSize(n) || n == 128
    ensures NttFrom(InttTo(g, n), n) == Scale(Gain(n), g)
    decreases 128 - n
  {
    if n == 128 {
      assert Scale(1, g) == g;
    } else {
      var h := InttTo(g, 2 * n);
      LayersUndo(h, n);
      ScaleNttFrom(2, h, 2 * n);
      ForwardAfterInverse(g, 2 * n);
      ScaleScale(2, Gain(2 * n), g);
    }
  }

  lemma FullGain(f: Poly)
    ensures Gain(1) == 128
    ensures Scale(3303 * 128, f) == f
  {
    forall j | 0 <= j < 256
      ensures Scale(3303 * 128, f)[j] == f[j]
    {
      var x: int := f[j];
      CongFrom(3303 * 128 * x, x, 127 * x, Q);
    }
    assert Gain(16) == 8 by {
      assert Gain(64) == 2 * Gain(128);
    }
    assert Gain(2) == 64 by {
      assert Gain(4) == 2 * Gain(8);
    }
  }

  /** The inverse transform undoes the forward one. */
  lemma InttNtt(f: Poly)
    ensures Intt(Ntt(f)) == f
  {
    InverseAfterForward(f, 1);
    FullGain(f);
    ScaleScale(3303, 128, f);
  }

  /** The forward transform undoes the inverse one. */
  lemma NttIntt(g: Poly)
    ensures Ntt(Intt(g)) == g
  {
    ForwardAfterInverse(g, 1);
    FullGain(g);
    ScaleNttFrom(3303, InttTo(g, 1), 1);
    ScaleScale(3303, 128, g);
  }
}
