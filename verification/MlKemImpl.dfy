/** The in-place polynomial code of ML-KEM over 16-bit coefficient arrays. */
module MlKemImpl {
  import opened ModArith
  import opened PowersOfTwo
  import opened MlKemField
  import opened MlKemNtt
  import opened MlKemRing

  type Word16 = x: int | 0 <= x < 0x1_0000

  /** The machine words of the intermediates: every result of an operation on
      them has to fit. */
  newtype Uint32 = x: int | 0 <= x < 0x1_0000_0000
  newtype Int32 = x: int | -0x8000_0000 <= x < 0x8000_0000

  predicate Reduced(f: seq<Word16>) {
    |f| == 256 && forall j | 0 <= j < 256 :: f[j] < 3329
  }

  /** The root tables as the initialisation leaves them. */
  predicate RootTable(t: seq<Word16>) {
    |t| == 128 && forall k | 0 <= k < 128 :: t[k] == Zeta(k)
  }

  predicate GammaTable(t: seq<Word16>) {
    |t| == 128 && forall k | 0 <= k < 128 :: t[k] == Gamma(k)
  }

  // ----- root tables -----

  method BitReverse(i: nat) returns (r: nat)
    requires i < 128
    ensures r == BitRev7(i)
  {
    r := 0;
    var b, rest: nat := 0, i;
    while b < 7
      invariant b <= 7 && r == RevBits(i, 7) - RevBits(rest, 7 - b)
    {
      r := r + rest % 2 * Pow2(6 - b);
      rest := rest / 2;
      b := b + 1;
    }
  }

  /** Square and multiply in 32-bit words. */
  method PowQ(base: Word16, e: nat) returns (r: Word16)
    requires base < 3329
    ensures r == Pow(base, e) % Q
  {
    var x: Uint32, b: Uint32, k := 1, base as Uint32, e;
    while k != 0
      invariant x < 3329 && b < 3329
      invariant (x as int) * Pow(b as int, k) % Q == Pow(base, e) % Q
    {
      SquareAndMultiply(x as int, b as int, k);
      if k % 2 == 1 {
        ProductBound(x as int, b as int, 3329);
        x := x * b % 3329;
      }
      ProductBound(b as int, b as int, 3329);
      b := b * b % 3329;
      k := k / 2;
    }
    r := x as int;
  }

  /** One round of square and multiply keeps x b^k modulo q. */
  lemma SquareAndMultiply(x: int, b: int, k: nat)
    requires 1 <= k
    ensures (if k % 2 == 1 then x * b % Q else x) * Pow(b * b % Q, k / 2) % Q == x * Pow(b, k) % Q
  {
    var h := k / 2;
    CongReduce(b * b, Q);
    PowCong(b * b % Q, b * b, h, Q);
    PowMul(b, 2, h);
    assert Pow(b, 2) == b * b by {
      assert Pow(b, 1) == b * Pow(b, 0);
    }
    if k % 2 == 1 {
      CongReduce(x * b, Q);
      CongMul(x * b % Q, x * b, Pow(b * b % Q, h), Pow(b, 2 * h), Q);
      assert k == 2 * h + 1;
      Associate(x, b, Pow(b, 2 * h));
    } else {
      CongMul(x, x, Pow(b * b % Q, h), Pow(b, 2 * h), Q);
      assert k == 2 * h;
    }
  }

  method InitTables(zetas: array<Word16>, gammas: array<Word16>)
    requires zetas != gammas && zetas.Length == 128 && gammas.Length == 128
    modifies zetas, gammas
    ensures RootTable(zetas[..]) && GammaTable(gammas[..])
  {
    for i := 0 to 128
      invariant forall k | 0 <= k < i :: zetas[k] == Zeta(k) && gammas[k] == Gamma(k)
    {
      var e := BitReverse(i);
      zetas[i] := PowQ(17, e);
      gammas[i] := PowQ(17, 2 * e + 1);
    }
  }

  // ----- the transforms, in place -----

  function ToPoly(f: seq<Word16>): (p: Poly)
    requires Reduced(f)
    ensures p == f
  {
    f
  }

  /** The arithmetic of the butterflies in 32-bit words. */
  method ForwardPair(x: Word16, y: Word16, z: Word16) returns (lo: Word16, hi: Word16)
    requires x < 3329 && y < 3329 && z < 3329
    ensures lo == Lo(x, y, z) && hi == Hi(x, y, z)
  {
    var a, b, c := x as Uint32, y as Uint32, z as Uint32;
    ProductBound(z, y, 3329);
    var t := c * b % 3329;
    hi := ((a + 3329 - t) % 3329) as int;
    lo := ((a + t) % 3329) as int;
  }

  method InversePair(x: Word16, y: Word16, z: Word16) returns (lo: Word16, hi: Word16)
    requires x < 3329 && y < 3329 && z < 3329
    ensures lo == InvLo(x, y) && hi == InvHi(x, y, z)
  {
    var t, b, c := x as Uint32, y as Uint32, z as Uint32;
    lo := ((t + b) % 3329) as int;
    ProductBound(z, (y + Q - x) % Q, 3329);
    hi := (c * ((b + 3329 - t) % 3329) % 3329) as int;
  }

  /** The array while a forward block at `start` has `c` pairs done. */
  function ForwardPartial(g: Poly, start: nat, len: nat, z: Zq, c: nat): Poly
    requires start + 2 * len <= 256 && c <= len
  {
    seq(256, p requires 0 <= p < 256 =>
      if start <= p < start + c then Lo(g[p], g[p + len], z)
      else if start + len <= p < start + len + c then Hi(g[p - len], g[p], z)
      else g[p])
  }

  function InversePartial(g: Poly, start: nat, len: nat, z: Zq, c: nat): Poly
    requires start + 2 * len <= 256 && c <= len
  {
    seq(256, p requires 0 <= p < 256 =>
      if start <= p < start + c then InvLo(g[p], g[p + len])
      else if start + len <= p < start + len + c then InvHi(g[p - len], g[p], z)
      else g[p])
  }

  lemma PartialStep(g: Poly, start: nat, len: nat, z: Zq, c: nat)
    requires start + 2 * len <= 256 && c < len
    ensures var j := start + c;
      && ForwardPartial(g, start, len, z, c)[j] == g[j] && ForwardPartial(g, start, len, z, c)[j + len] == g[j + len]
      && ForwardPartial(g, start, len, z, c + 1)
        == ForwardPartial(g, start, len, z, c)[j + len := Hi(g[j], g[j + len], z)][j := Lo(g[j], g[j + len], z)]
    ensures var j := start + c;
      && InversePartial(g, start, len, z, c)[j] == g[j] && InversePartial(g, start, len, z, c)[j + len] == g[j + len]
      && InversePartial(g, start, len, z, c + 1)
        == InversePartial(g, start, len, z, c)[j := InvLo(g[j], g[j + len])][j + len := InvHi(g[j], g[j + len], z)]
  {
    hide Lo, Hi, InvLo, InvHi;
  }

  lemma PartialStarts(g: Poly, start: nat, len: nat, z: Zq)
    requires start + 2 * len <= 256
    ensures ForwardPartial(g, start, len, z, 0) == g == InversePartial(g, start, len, z, 0)
  {
    hide Lo, Hi, InvLo, InvHi;
  }

  lemma ForwardPartialEnds(g: Poly, start: nat, len: nat, z: Zq)
    requires start + 2 * len <= 256
    ensures ForwardPartial(g, start, len, z, len)
      == g[..start] + Butterfly(g[start..start + 2 * len], z, len) + g[start + 2 * len..]
  {
    hide Lo, Hi;
    var b := g[start..start + 2 * len];
    var r := g[..start] + Butterfly(b, z, len) + g[start + 2 * len..];
    forall p | 0 <= p < 256 ensures ForwardPartial(g, start, len, z, len)[p] == r[p] {
      if start <= p < start + 2 * len {
        assert r[p] == Butterfly(b, z, len)[p - start];
      }
    }
  }

  lemma InversePartialEnds(g: Poly, start: nat, len: nat, z: Zq)
    requires start + 2 * len <= 256
    ensures InversePartial(g, start, len, z, len)
      == g[..start] + InvButterfly(g[start..start + 2 * len], z, len) + g[start + 2 * len..]
  {
    hide InvLo, InvHi;
    var b := g[start..start + 2 * len];
    var r := g[..start] + InvButterfly(b, z, len) + g[start + 2 * len..];
    forall p | 0 <= p < 256 ensures InversePartial(g, start, len, z, len)[p] == r[p] {
      if start <= p < start + 2 * len {
        assert r[p] == InvButterfly(b, z, len)[p - start];
      }
    }
  }

  /** The inner loop of the forward transform: one block, in place. */
  method ForwardBlock(f: array<Word16>, start: nat, len: nat, z: Word16)
    requires z < 3329 && f.Length == 256 && Reduced(f[..]) && start + 2 * len <= 256
    modifies f
    ensures f[..] == old(f[..start]) + Butterfly(old(f[start..start + 2 * len]), z, len) + old(f[start + 2 * len..])
  {
    hide *;
    ghost var g := ToPoly(f[..]);
    PartialStarts(g, start, len, z);
    ForwardPartialEnds(g, start, len, z);
    var j: nat := start;
    ghost var c: nat := 0;
    while j < start + len
      invariant j == start + c && c <= len
      invariant f[..] == ForwardPartial(g, start, len, z, c)
    {
      PartialStep(g, start, len, z, c);
      ghost var was := f[..];
      assert f[j] == was[j] && f[j + len] == was[j + len];
      var lo, hi := ForwardPair(f[j], f[j + len], z);
      f[j + len] := hi;
      f[j] := lo;
      assert f[..] == was[j + len := hi][j := lo];
      j := j + 1;
      c := c + 1;
    }
  }

  /** The inner loop of the inverse transform: one block, in place. */
  method InverseBlock(f: array<Word16>, start: nat, len: nat, z: Word16)
    requires z < 3329 && f.Length == 256 && Reduced(f[..]) && start + 2 * len <= 256
    modifies f
    ensures f[..] == old(f[..start]) + InvButterfly(old(f[start..start + 2 * len]), z, len) + old(f[start + 2 * len..])
  {
    hide *;
    ghost var g := ToPoly(f[..]);
    PartialStarts(g, start, len, z);
    InversePartialEnds(g, start, len, z);
    var j: nat := start;
    ghost var c: nat := 0;
    while j < start + len
      invariant j == start + c && c <= len
      invariant f[..] == InversePartial(g, start, len, z, c)
    {
      PartialStep(g, start, len, z, c);
      ghost var was := f[..];
      assert f[j] == was[j] && f[j + len] == was[j + len];
      var lo, hi := InversePair(f[j], f[j + len], z);
      f[j] := lo;
      f[j + len] := hi;
      assert f[..] == was[j := lo][j + len := hi];
      j := j + 1;
      c := c + 1;
    }
  }

  /** Doing one more forward block: the finished part grows by it. */
  lemma ForwardStep(f: Poly, f': seq<Word16>, g: Poly, start: nat, len: nat, i: nat, done: Poly)
    requires 1 <= len && start + 2 * len <= 256 && f[start..] == g[start..]
    requires f' == f[..start] + Butterfly(f[start..start + 2 * len], Zeta(i), len) + f[start + 2 * len..]
    requires done == f[..start] + Blocks(g[start..], len, i)
    ensures Reduced(f') && f'[start + 2 * len..] == g[start + 2 * len..]
    ensures done == f'[..start + 2 * len] + Blocks(g[start + 2 * len..], len, i + 1)
  {
    hide Zeta, Butterfly;
    assert f[start..start + 2 * len] == f[start..][..2 * len];
    assert f[start + 2 * len..] == f[start..][2 * len..];
    assert g[start + 2 * len..] == g[start..][2 * len..];
    var b := Butterfly(f[start..start + 2 * len], Zeta(i), len);
    assert f'[..start + 2 * len] == f[..start] + b;
  }

  lemma InverseStep(f: Poly, f': seq<Word16>, g: Poly, start: nat, len: nat, i: nat, done: Poly)
    requires 1 <= len && start + 2 * len <= 256 && f[start..] == g[start..]
    requires f' == f[..start] + InvButterfly(f[start..start + 2 * len], Zeta(i), len) + f[start + 2 * len..]
    requires done == f[..start] + InvBlocks(g[start..], len, i)
    ensures Reduced(f') && f'[start + 2 * len..] == g[start + 2 * len..]
    ensures done == f'[..start + 2 * len] + InvBlocks(g[start + 2 * len..], len, i - 1)
  {
    hide Zeta, InvButterfly;
    assert f[start..start + 2 * len] == f[start..][..2 * len];
    assert f[start + 2 * len..] == f[start..][2 * len..];
    assert g[start + 2 * len..] == g[start..][2 * len..];
    var b := InvButterfly(f[start..start + 2 * len], Zeta(i), len);
    assert f'[..start + 2 * len] == f[..start] + b;
  }

  lemma LayerStart(g: Poly, n: nat, len: nat)
    requires IsLayerSize(n) && len == Width(n)
    ensures 1 <= len && 1 <= n <= 64 && Span(n, 2 * len) == 256
    ensures Layer(g, n) == g[..0] + Blocks(g[0..], len, n)
    ensures InvLayer(g, n) == g[..0] + InvBlocks(g[0..], len, 2 * n - 1)
  {
    hide Blocks, InvBlocks;
    WidthFits(n);
    assert g[0..] == g;
  }

  /** The middle loop of the forward transform: all blocks of one layer. */
  method ForwardLayer(f: array<Word16>, zetas: array<Word16>, len: nat, first: nat) returns (i: nat)
    requires f != zetas && RootTable(zetas[..]) && Reduced(f[..])
    requires IsLayerSize(first) && len == Width(first)
    modifies f
    ensures Reduced(f[..]) && f[..] == Layer(old(f[..]), first)
    ensures i == 2 * first
  {
    hide Zeta, Butterfly, Blocks, Layer, Reduced, Width, IsLayerSize;
    ghost var g := ToPoly(f[..]);
    ghost var done := Layer(g, first);
    ghost var m: nat := first;
    LayerStart(g, first, len);
    var start: nat := 0;
    i := first;
    while start < 256
      invariant i + m == 2 * first && start + Span(m, 2 * len) == 256
      invariant Reduced(f[..]) && f[start..] == g[start..]
      invariant done == f[..start] + Blocks(g[start..], len, i)
      decreases m
    {
      var z := zetas[i];
      assert z == zetas[..][i] == Zeta(i);
      ghost var was: Poly := ToPoly(f[..]);
      ForwardBlock(f, start, len, z);
      ForwardStep(was, f[..], g, start, len, i, done);
      i := i + 1;
      start := start + 2 * len;
      m := m - 1;
    }
  }

  /** The middle loop of the inverse transform: all blocks of one layer. */
  method InverseLayer(f: array<Word16>, zetas: array<Word16>, len: nat, last: nat, ghost n: nat) returns (i: int)
    requires f != zetas && RootTable(zetas[..]) && Reduced(f[..])
    requires IsLayerSize(n) && len == Width(n) && last == 2 * n - 1
    modifies f
    ensures Reduced(f[..]) && f[..] == InvLayer(old(f[..]), n)
    ensures i == n - 1
  {
    hide Zeta, InvButterfly, InvBlocks, InvLayer, Reduced, Width, IsLayerSize;
    ghost var g := ToPoly(f[..]);
    ghost var done := InvLayer(g, n);
    ghost var m: nat := n;
    LayerStart(g, n, len);
    var start: nat := 0;
    i := last;
    while start < 256
      invariant n - 1 + m == i && start + Span(m, 2 * len) == 256
      invariant Reduced(f[..]) && f[start..] == g[start..]
      invariant done == f[..start] + InvBlocks(g[start..], len, i)
      decreases m
    {
      var z := zetas[i];
      assert z == zetas[..][i] == Zeta(i);
      ghost var was: Poly := ToPoly(f[..]);
      InverseBlock(f, start, len, z);
      InverseStep(was, f[..], g, start, len, i, done);
      i := i - 1;
      start := start + 2 * len;
      m := m - 1;
    }
  }

  /** The forward transform: layers of width 128, 64, ..., 2. */
  method NttInPlace(f: array<Word16>, zetas: array<Word16>)
    requires f != zetas && RootTable(zetas[..]) && Reduced(f[..])
    modifies f
    ensures Reduced(f[..]) && f[..] == Ntt(old(f[..]))
  {
    hide Zeta, Layer, RootTable, Reduced;
    ghost var g := ToPoly(f[..]);
    var len: nat, i: nat := 128, 1;
    ghost var n: nat := 1;
    while len >= 2
      invariant i == n
      invariant (n == 128 && len == 1) || (IsLayerSize(n) && len == Width(n))
      invariant Reduced(f[..]) && RootTable(zetas[..])
      invariant NttFrom(ToPoly(f[..]), n) == Ntt(g)
    {
      WidthHalves(n);
      HalfWidth(n);
      i := ForwardLayer(f, zetas, len, i);
      len := len / 2;
      n := 2 * n;
    }
  }

  lemma HalfWidth(n: nat)
    requires IsLayerSize(n)
    ensures 2 <= Width(n) && if n == 64 then Width(n) / 2 == 1 else Width(n) / 2 == Width(2 * n)
    ensures n != 1 ==> IsLayerSize(n / 2) && n == 2 * (n / 2) && Width(n / 2) == 2 * Width(n)
  {
  }

  /** The inverse transform: layers of width 2, 4, ..., 128, then 1 / 128. */
  method InttInPlace(f: array<Word16>, zetas: array<Word16>)
    requires f != zetas && RootTable(zetas[..]) && Reduced(f[..])
    modifies f
    ensures Reduced(f[..]) && f[..] == Intt(old(f[..]))
  {
    hide Zeta, InvLayer, RootTable, Reduced;
    ghost var g := ToPoly(f[..]);
    var len: nat, i: int := 2, 127;
    ghost var n: nat := 128;
    while len <= 128
      invariant i == n - 1
      invariant (n == 128 && len == 2) || (IsLayerSize(n) && len == 2 * Width(n))
      invariant Reduced(f[..]) && RootTable(zetas[..])
      invariant f[..] == InttTo(g, n)
      decreases 256 - len
    {
      NextInverseLayer(n, len);
      n := n / 2;
      i := InverseLayer(f, zetas, len, i, n);
      len := 2 * len;
    }
    assert n == 1 by {
      InverseLayersDone(n, len);
    }
    ScaleInPlace(f);
  }

  lemma NextInverseLayer(n: nat, len: nat)
    requires (n == 128 && len == 2) || (IsLayerSize(n) && len == 2 * Width(n))
    requires len <= 128
    ensures IsLayerSize(n / 2) && n == 2 * (n / 2) && len == Width(n / 2)
  {
  }

  lemma InverseLayersDone(n: nat, len: nat)
    requires (n == 128 && len == 2) || (IsLayerSize(n) && len == 2 * Width(n))
    requires len > 128
    ensures n == 1
  {
  }

  method ScaleInPlace(f: array<Word16>)
    requires Reduced(f[..])
    modifies f
    ensures Reduced(f[..]) && f[..] == Scale(3303, old(f[..]))
  {
    ghost var g := ToPoly(f[..]);
    for j := 0 to 256
      invariant forall p | 0 <= p < 256 :: f[p] == if p < j then 3303 * g[p] % Q else g[p]
    {
      var x := f[j] as Uint32;
      f[j] := (x * 3303 % 3329) as int;
    }
  }

  // ----- pointwise operations -----

  /** One pair product in 32-bit words; operands may be 12-bit. */
  method PairProduct(a0: Word16, a1: Word16, b0: Word16, b1: Word16, g: Word16) returns (lo: Word16, hi: Word16)
    requires a0 < 4096 && a1 < 4096 && b0 < 4096 && b1 < 4096 && g < 3329
    ensures lo == PairLow(a0, a1, b0, b1, g) && hi == PairHigh(a0, a1, b0, b1)
  {
    ProductBound(a0, b0, 4096);
    ProductBound(a1, b1, 4096);
    ProductBound(a0, b1, 4096);
    ProductBound(a1, b0, 4096);
    ProductBound(a1 * b1 % Q, g, 4096);
    var x0, x1, y0, y1, c := a0 as Uint32, a1 as Uint32, b0 as Uint32, b1 as Uint32, g as Uint32;
    lo := ((x0 * y0 + x1 * y1 % 3329 * c) % 3329) as int;
    hi := ((x0 * y1 + x1 * y0) % 3329) as int;
  }

  lemma ProductBound(x: nat, y: nat, n: nat)
    requires x < n && y < n
    ensures 0 <= x * y < n * n
  {
  }

  predicate Bits12(f: seq<Word16>) {
    |f| == 256 && forall j | 0 <= j < 256 :: f[j] < 4096
  }

  method BaseMulInto(a: array<Word16>, b: array<Word16>, gammas: array<Word16>, c: array<Word16>)
    requires c != a && c != b && c != gammas && c.Length == 256
    requires Bits12(a[..]) && Bits12(b[..]) && GammaTable(gammas[..])
    modifies c
    ensures Reduced(c[..]) && c[..] == BaseMul(a[..], b[..])
  {
    hide Gamma, BaseMul, PairLow, PairHigh;
    for i := 0 to 128
      invariant forall p | 0 <= p < 2 * i :: c[p] == BaseMul(a[..], b[..])[p]
    {
      BaseMulAt(a[..], b[..], i);
      assert gammas[i] == gammas[..][i] == Gamma(i);
      assert a[2 * i] == a[..][2 * i] && a[2 * i + 1] == a[..][2 * i + 1];
      assert b[2 * i] == b[..][2 * i] && b[2 * i + 1] == b[..][2 * i + 1];
      var lo, hi := PairProduct(a[2 * i], a[2 * i + 1], b[2 * i], b[2 * i + 1], gammas[i]);
      c[2 * i] := lo;
      c[2 * i + 1] := hi;
    }
  }

  /** a += b; the two may be the same array. */
  method AddInto(a: array<Word16>, b: array<Word16>)
    requires Reduced(a[..]) && Reduced(b[..])
    modifies a
    ensures Reduced(a[..]) && a[..] == PolyAdd(old(a[..]), old(b[..]))
  {
    ghost var x, y := ToPoly(a[..]), ToPoly(b[..]);
    for i := 0 to 256
      invariant forall p | 0 <= p < 256 :: a[p] == if p < i then (x[p] + y[p]) % Q else x[p]
      invariant a != b ==> b[..] == y
    {
      assert b[i] == y[i];
      var s, t := a[i] as Int32, b[i] as Int32;
      a[i] := ((s + t) % 3329) as int;
    }
  }
}
