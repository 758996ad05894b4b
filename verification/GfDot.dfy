/** The POLYVAL multiplication of GF(2^128) (section 3 of RFC 8452).  A number is
    its bits, least significant first; bit i is the coefficient of x^i. */
module GfDot {
  type Bits = seq<bool>
  type Bits64 = b: Bits | |b| == 64 witness seq(64, _ => false)
  type Bits128 = b: Bits | |b| == 128 witness seq(128, _ => false)
  type Bits256 = b: Bits | |b| == 256 witness seq(256, _ => false)

  // ----- bit operations -----

  function Zero(n: nat): (z: Bits)
    ensures |z| == n && forall j :: 0 <= j < n ==> !z[j]
  {
    seq(n, _ => false)
  }

  function Xor(f: Bits, g: Bits): (h: Bits)
    requires |f| == |g|
    ensures |h| == |f| && forall j :: 0 <= j < |h| ==> h[j] == (f[j] != g[j])
  {
    seq(|f|, j requires 0 <= j < |f| => f[j] != g[j])
  }

  /** f x^k in n bits, f << k. */
  function ShiftUp(f: Bits, k: nat, n: nat): (h: Bits)
    ensures |h| == n && forall j :: 0 <= j < n ==> h[j] == (k <= j < k + |f| && f[j - k])
  {
    seq(n, j requires 0 <= j < n => k <= j < k + |f| && f[j - k])
  }

  /** f >> k in the same number of bits. */
  function ShiftDown(f: Bits, k: nat): (h: Bits)
    ensures |h| == |f| && forall j :: 0 <= j < |h| ==> h[j] == (j + k < |f| && f[j + k])
  {
    seq(|f|, j requires 0 <= j < |f| => j + k < |f| && f[j + k])
  }

  function BitsAt(set0: int, set1: int, set2: int): Bits64 {
    seq(64, j => j == set0 || j == set1 || j == set2)
  }

  function And(f: Bits, g: Bits): (h: Bits)
    requires |f| == |g|
    ensures |h| == |f| && forall j :: 0 <= j < |h| ==> h[j] == (f[j] && g[j])
  {
    seq(|f|, j requires 0 <= j < |f| => f[j] && g[j])
  }

  /** f - g - borrow, wrapping in the number of bits. */
  function Minus(f: Bits, g: Bits, borrow: bool): (h: Bits)
    requires |f| == |g|
    ensures |h| == |f|
  {
    if f == [] then []
    else
      var out := if f[0] then g[0] && borrow else g[0] || borrow;
      [f[0] != (g[0] != borrow)] + Minus(f[1..], g[1..], out)
  }

  /** n equal bits. */
  function Filled(n: nat, on: bool): (m: Bits)
    ensures |m| == n && forall j :: 0 <= j < n ==> m[j] == on
  {
    seq(n, _ => on)
  }

  /** 0 - (f & 1). */
  function Mask(f: Bits64): Bits64 {
    Minus(Zero(64), And(f, BitsAt(0, 0, 0)), false)
  }

  lemma {:induction false} MinusZero(n: nat, borrow: bool)
    ensures Minus(Zero(n), Zero(n), borrow) == Filled(n, borrow)
  {
    if n != 0 {
      assert Zero(n)[1..] == Zero(n - 1);
      MinusZero(n - 1, borrow);
      assert Filled(n, borrow) == [borrow] + Filled(n - 1, borrow);
    }
  }

  /** The mask has every bit equal to the low one. */
  lemma MaskIsFilled(f: Bits64)
    ensures Mask(f) == Filled(64, f[0])
  {
    var low := And(f, BitsAt(0, 0, 0));
    assert Zero(64)[1..] == Zero(63) && low[1..] == Zero(63);
    MinusZero(63, f[0]);
    assert Filled(64, f[0]) == [f[0]] + Filled(63, f[0]);
  }

  lemma AndFilled(f: Bits, on: bool)
    ensures And(f, Filled(|f|, on)) == if on then f else Zero(|f|)
  {
  }

  function Or(f: Bits, g: Bits): (h: Bits)
    requires |f| == |g|
    ensures |h| == |f| && forall j :: 0 <= j < |h| ==> h[j] == (f[j] || g[j])
  {
    seq(|f|, j requires 0 <= j < |f| => f[j] || g[j])
  }

  /** x^128 + x^127 + x^126 + x^121 + 1. */
  function Polyval(): (p: Bits256)
    ensures forall j :: 0 <= j < 256 ==> p[j] == (j == 0 || j == 121 || j == 126 || j == 127 || j == 128)
  {
    seq(256, j => j == 0 || j == 121 || j == 126 || j == 127 || j == 128)
  }

  // ----- the bigint form -----

  /** The product of b with the n low bits of a. */
  function Accumulate(a: Bits, b: Bits, n: nat): (c: Bits256)
    requires n <= |a|
  {
    if n == 0 then Zero(256)
    else if a[n - 1] then Xor(Accumulate(a, b, n - 1), ShiftUp(b, n - 1, 256))
    else Accumulate(a, b, n - 1)
  }

  /** One halving: add the modulus when the low bit is set, then divide by x. */
  function Halve(c: Bits256): Bits256 {
    ShiftDown(if c[0] then Xor(c, Polyval()) else c, 1)
  }

  function Halved(c: Bits256, n: nat): Bits256 {
    if n == 0 then c else Halve(Halved(c, n - 1))
  }

  function Dot(a: Bits128, b: Bits128): Bits128 {
    Halved(Accumulate(a, b, 128), 128)[..128]
  }

  /** Bits from n on are zero. */
  predicate Below(c: Bits, n: nat) {
    forall j :: n <= j < |c| ==> !c[j]
  }

  method DotBigint(a: Bits128, b: Bits128) returns (c: Bits256)
    ensures c == Dot(a, b) + Zero(128)
  {
    hide Xor, ShiftUp, ShiftDown, Halve;
    c := Zero(256);
    for i := 0 to 128
      invariant c == Accumulate(a, b, i)
    {
      if a[i] {
        c := Xor(c, ShiftUp(b, i, 256));
      }
    }
    ghost var product := c;
    for n := 0 to 128
      invariant c == Halved(product, n)
    {
      HalveIs(c);
      if c[0] {
        c := Xor(c, Polyval());
      }
      c := ShiftDown(c, 1);
    }
    DotFits(a, b);
    assert c == c[..128] + c[128..];
  }

  lemma HalveIs(c: Bits256)
    ensures Halve(c) == ShiftDown(if c[0] then Xor(c, Polyval()) else c, 1)
  {
  }

  lemma {:induction false} ProductBelow(a: Bits128, b: Bits128, n: nat)
    requires n <= 128
    ensures Below(Accumulate(a, b, n), 255)
  {
    if n != 0 {
      ProductBelow(a, b, n - 1);
    }
  }

  function Bound(n: nat): nat {
    if n <= 127 then 255 - n else 128
  }

  /** Every halving lowers the degree, down to 128 bits. */
  lemma {:induction false} HalvedBelow(c: Bits256, n: nat)
    requires Below(c, 255)
    ensures Below(Halved(c, n), Bound(n))
  {
    if n != 0 {
      HalvedBelow(c, n - 1);
      var d := Halved(c, n - 1);
      forall j | Bound(n) <= j < 256 ensures !Halve(d)[j] {
        if j + 1 < 256 {
          assert !d[j + 1] && !Polyval()[j + 1];
        }
      }
    }
  }

  /** The result of the 256-bit computation has 128 bits. */
  lemma DotFits(a: Bits128, b: Bits128)
    ensures Below(Halved(Accumulate(a, b, 128), 128), 128)
    ensures Halved(Accumulate(a, b, 128), 128)[128..] == Zero(128)
  {
    hide Halved, Accumulate;
    ProductBelow(a, b, 128);
    HalvedBelow(Accumulate(a, b, 128), 128);
    var c := Halved(Accumulate(a, b, 128), 128);
    forall j | 0 <= j < 128 ensures !c[128..][j] {
      assert c[128..][j] == c[j + 128];
    }
  }

  // ----- what it means -----

  /** Coefficient k of the product of a and b: the parity of a_i b_(k-i), i < n. */
  function Coefficient(a: Bits, b: Bits, k: int, n: nat): bool
    requires n <= |a|
  {
    if n == 0 then false
    else Coefficient(a, b, k, n - 1) != (a[n - 1] && 0 <= k - (n - 1) < |b| && b[k - (n - 1)])
  }

  /** The carry-less product of a and b, in 256 bits. */
  function Product(a: Bits, b: Bits): (c: Bits256)
    ensures forall k :: 0 <= k < 256 ==> c[k] == Coefficient(a, b, k, |a|)
  {
    seq(256, k => Coefficient(a, b, k, |a|))
  }

  lemma {:induction false} AccumulateAt(a: Bits, b: Bits, n: nat, k: nat)
    requires n <= |a| && k < 256
    ensures Accumulate(a, b, n)[k] == Coefficient(a, b, k, n)
    decreases n
  {
    if n != 0 {
      AccumulateAt(a, b, n - 1, k);
    }
  }

  lemma AccumulateIsProduct(a: Bits, b: Bits)
    ensures Accumulate(a, b, |a|) == Product(a, b)
  {
    hide Accumulate;
    forall k | 0 <= k < 256 ensures Accumulate(a, b, |a|)[k] == Product(a, b)[k] {
      AccumulateAt(a, b, |a|, k);
    }
  }

  /** The low bits of the halvings: the quotient of the reduction. */
  function Quotient(c: Bits256, n: nat): (q: Bits)
    ensures |q| == n
  {
    if n == 0 then [] else Quotient(c, n - 1) + [Halved(c, n - 1)[0]]
  }

  lemma {:induction false} AccumulatePrefix(q: Bits, d: bool, b: Bits, n: nat)
    requires n <= |q|
    ensures Accumulate(q + [d], b, n) == Accumulate(q, b, n)
    decreases n
  {
    if n != 0 {
      AccumulatePrefix(q, d, b, n - 1);
    }
  }

  /** After n halvings, c x^n differs from the start by a multiple of the modulus. */
  lemma {:induction false} HalvingsInvariant(c: Bits256, n: nat)
    requires Below(c, 255) && n <= 128
    ensures Xor(ShiftUp(Halved(c, n), n, 256), Accumulate(Quotient(c, n), Polyval(), n)) == c
  {
    if n == 0 {
    } else {
      HalvingsInvariant(c, n - 1);
      HalvedBelow(c, n - 1);
      var m := n - 1;
      var d, q := Halved(c, m), Quotient(c, m);
      AccumulatePrefix(q, d[0], Polyval(), m);
      HalvingStep(c, d, Accumulate(q, Polyval(), m), m);
      assert Quotient(c, n)[m] == d[0];
    }
  }

  lemma HalvingStep(c: Bits256, d: Bits256, sum: Bits256, m: nat)
    requires m < 128 && Below(d, 255 - m) && Xor(ShiftUp(d, m, 256), sum) == c
    ensures Xor(ShiftUp(Halve(d), m + 1, 256), if d[0] then Xor(sum, ShiftUp(Polyval(), m, 256)) else sum) == c
  {
    var h := ShiftUp(Halve(d), m + 1, 256);
    var e := if d[0] then Xor(d, Polyval()) else d;
    assert !e[0];
    forall j | 0 <= j < 256 ensures h[j] == (m <= j && e[j - m]) {
      if m + 1 <= j {
        assert Halve(d)[j - m - 1] == e[j - m];
      }
    }
    forall j | 0 <= j < 256 ensures c[j] == (h[j] != (if d[0] then Xor(sum, ShiftUp(Polyval(), m, 256)) else sum)[j]) {
      assert c[j] == (ShiftUp(d, m, 256)[j] != sum[j]);
    }
  }

  /** dot(a, b) x^128 is the product of a and b modulo the POLYVAL polynomial:
      the two differ by an explicit multiple of it. */
  lemma DotIsProduct(a: Bits128, b: Bits128) returns (q: Bits128)
    ensures Xor(ShiftUp(Dot(a, b), 128, 256), Product(q, Polyval())) == Product(a, b)
  {
    hide Halved, Accumulate, Coefficient, Quotient;
    var c := Accumulate(a, b, 128);
    ProductBelow(a, b, 128);
    q := Quotient(c, 128);
    HalvingsInvariant(c, 128);
    AccumulateIsProduct(a, b);
    AccumulateIsProduct(q, Polyval());
    assert ShiftUp(Dot(a, b), 128, 256) == ShiftUp(Halved(c, 128), 128, 256);
  }

  // ----- the limb form -----

  function Join(w0: Bits64, w1: Bits64, w2: Bits64, w3: Bits64): Bits256 {
    w0 + w1 + w2 + w3
  }

  /** Limb l of a 256-bit number. */
  function Limb(c: Bits256, l: nat): Bits64
    requires l < 4
  {
    c[64 * l..64 * l + 64]
  }

  /** b[0] >> (64 - s), which C leaves undefined at s = 0 and the code guards. */
  function Spill(w: Bits64, s: nat): (h: Bits64)
    requires s < 64
    ensures forall j :: 0 <= j < 64 ==> h[j] == (j < s && w[j + 64 - s])
  {
    if s == 0 then Zero(64) else ShiftDown(w, 64 - s)
  }

  /** The three limbs that b << i reaches, for i = 64 w + s. */
  lemma LimbsOfShift(b0: Bits64, b1: Bits64, w: nat, s: nat, t: Bits256)
    requires w < 2 && s < 64 && t == ShiftUp(Pair(b0, b1), 64 * w + s, 256)
    ensures Limb(t, w) == ShiftUp(b0, s, 64)
    ensures Limb(t, w + 1) == Xor(Spill(b0, s), ShiftUp(b1, s, 64))
    ensures Limb(t, w + 2) == Spill(b1, s)
    ensures forall l :: 0 <= l < 4 && (l < w || l > w + 2) ==> Limb(t, l) == Zero(64)
  {
    forall l, j | 0 <= l < 4 && 0 <= j < 64 ensures Limb(t, l)[j] == t[64 * l + j] {
    }
  }

  method Limbs(c: array<Bits64>, ghost t: Bits256, m: Bits64, ghost on: bool, b0: Bits64, b1: Bits64, w: nat, s: nat)
    requires c.Length == 4 && w < 2 && s < 64 && m == Filled(64, on)
    requires t == ShiftUp(Pair(b0, b1), 64 * w + s, 256)
    modifies c
    ensures forall l :: 0 <= l < 4 ==> c[l] == if on then Xor(old(c[l]), Limb(t, l)) else old(c[l])
  {
    hide Xor, ShiftUp, ShiftDown, Spill, Limb, And;
    LimbsOfShift(b0, b1, w, s, t);
    forall f: Bits64 ensures Xor(f, Zero(64)) == f {
    }
    AndFilled(ShiftUp(b0, s, 64), on);
    AndFilled(Xor(Spill(b0, s), ShiftUp(b1, s, 64)), on);
    AndFilled(Spill(b1, s), on);
    c[w] := Xor(c[w], And(ShiftUp(b0, s, 64), m));
    c[w + 1] := Xor(c[w + 1], And(Xor(Spill(b0, s), ShiftUp(b1, s, 64)), m));
    c[w + 2] := Xor(c[w + 2], And(Spill(b1, s), m));
  }

  function Whole(c: seq<Bits64>): Bits256
    requires |c| == 4
  {
    Join(c[0], c[1], c[2], c[3])
  }

  lemma WholeLimb(c: seq<Bits64>, l: nat)
    requires |c| == 4 && l < 4
    ensures Limb(Whole(c), l) == c[l]
  {
  }

  /** A 256-bit number is determined by its limbs. */
  lemma FromLimbs(c: seq<Bits64>, t: Bits256)
    requires |c| == 4 && forall l :: 0 <= l < 4 ==> c[l] == Limb(t, l)
    ensures Whole(c) == t
  {
    assert t == Join(Limb(t, 0), Limb(t, 1), Limb(t, 2), Limb(t, 3));
  }

  lemma XorLimb(f: Bits256, g: Bits256, l: nat)
    requires l < 4
    ensures Limb(Xor(f, g), l) == Xor(Limb(f, l), Limb(g, l))
  {
  }

  /** Two limbs as a 128-bit number. */
  function Pair(lo: Bits64, hi: Bits64): Bits128 {
    var low: Bits := lo;
    low + hi
  }

  method GfDotLimbs(a0: Bits64, a1: Bits64, b0: Bits64, b1: Bits64) returns (out0: Bits64, out1: Bits64)
    ensures Pair(out0, out1) == Dot(Pair(a0, a1), Pair(b0, b1))
  {
    hide Xor, ShiftUp, ShiftDown, Limb, Accumulate, Halved, Halve, Whole, Mask, And;
    ghost var a, b := Pair(a0, a1), Pair(b0, b1);
    var c: array<Bits64> := new Bits64[4](_ => Zero(64));
    StartLimbs(c[..], a, b);
    for i := 0 to 128
      invariant Whole(c[..]) == Accumulate(a, b, i)
    {
      var w, s := i / 64, i % 64;
      var shifted := ShiftDown(if w == 0 then a0 else a1, s);
      var m := Mask(shifted);
      MaskIsFilled(shifted);
      assert shifted[0] == a[i];
      ghost var was := c[..];
      ghost var t := ShiftUp(b, i, 256);
      Limbs(c, t, m, a[i], b0, b1, w, s);
      AccumulateStep(a, b, i, was, c[..]);
    }
    ghost var product := Whole(c[..]);
    HalvedStart(product);
    for n := 0 to 128
      invariant Whole(c[..]) == Halved(product, n)
    {
      HalveLimbs(c);
      HalvedStep(product, n);
    }
    out0, out1 := c[0], c[1];
    LowHalf(c[..]);
  }

  lemma StartLimbs(c: seq<Bits64>, a: Bits, b: Bits)
    requires |c| == 4 && forall l :: 0 <= l < 4 ==> c[l] == Zero(64)
    ensures Whole(c) == Accumulate(a, b, 0)
  {
    assert Whole(c) == Zero(256);
  }

  lemma AccumulateStep(a: Bits, b: Bits, i: nat, was: seq<Bits64>, now: seq<Bits64>)
    requires i < |a| && |was| == 4 && |now| == 4 && Whole(was) == Accumulate(a, b, i)
    requires forall l :: 0 <= l < 4 ==> now[l] == if a[i] then Xor(was[l], Limb(ShiftUp(b, i, 256), l)) else was[l]
    ensures Whole(now) == Accumulate(a, b, i + 1)
  {
    hide Whole, Limb, Xor, ShiftUp;
    var sum := Whole(was);
    var next: Bits256 := if a[i] then Xor(sum, ShiftUp(b, i, 256)) else sum;
    forall l | 0 <= l < 4 ensures now[l] == Limb(next, l) {
      WholeLimb(was, l);
      XorLimb(sum, ShiftUp(b, i, 256), l);
    }
    FromLimbs(now, next);
  }

  lemma HalvedStart(c: Bits256)
    ensures Halved(c, 0) == c
  {
  }

  lemma HalvedStep(c: Bits256, n: nat)
    ensures Halved(c, n + 1) == Halve(Halved(c, n))
  {
  }

  lemma LowHalf(c: seq<Bits64>)
    requires |c| == 4
    ensures Whole(c)[..128] == Pair(c[0], c[1])
  {
  }

  /** One halving on limbs: masked addition of the modulus, then a shift that
      takes each limb's top bit from the limb above. */
  method HalveLimbs(c: array<Bits64>)
    requires c.Length == 4
    modifies c
    ensures Whole(c[..]) == Halve(Whole(old(c[..])))
  {
    hide Whole, Halve, Xor, ShiftUp, ShiftDown, Or, Limb, And, Mask, BitsAt;
    ghost var start, on := c[..], c[0][0];
    var r := Mask(c[0]);
    MaskIsFilled(c[0]);
    AndFilled(BitsAt(0, 0, 0), on);
    AndFilled(BitsAt(57, 62, 63), on);
    c[0] := Xor(c[0], And(BitsAt(0, 0, 0), r));
    c[1] := Xor(c[1], And(BitsAt(57, 62, 63), r));
    c[2] := Xor(c[2], And(BitsAt(0, 0, 0), r));
    ghost var reduced := c[..];
    ReducedLimbs(start, reduced, on);
    for limb := 0 to 3
      invariant forall l :: 0 <= l < limb ==> c[l] == Or(ShiftDown(reduced[l], 1), ShiftUp(reduced[l + 1], 63, 64))
      invariant forall l :: limb <= l < 4 ==> c[l] == reduced[l]
    {
      c[limb] := Or(ShiftDown(c[limb], 1), ShiftUp(c[limb + 1], 63, 64));
    }
    c[3] := ShiftDown(c[3], 1);
    ShiftedLimbs(reduced, c[..]);
    HalveIs(Whole(start));
  }

  lemma ReducedLimbs(was: seq<Bits64>, now: seq<Bits64>, r: bool)
    requires |was| == 4 && |now| == 4 && r == was[0][0]
    requires now[0] == Xor(was[0], if r then BitsAt(0, 0, 0) else Zero(64))
    requires now[1] == Xor(was[1], if r then BitsAt(57, 62, 63) else Zero(64))
    requires now[2] == Xor(was[2], if r then BitsAt(0, 0, 0) else Zero(64))
    requires now[3] == was[3]
    ensures r == Whole(was)[0]
    ensures Whole(now) == if r then Xor(Whole(was), Polyval()) else Whole(was)
  {
    hide Limb, BitsAt, Polyval, Xor;
    var c := Whole(was);
    var d: Bits256 := if r then Xor(c, Polyval()) else c;
    assert c[0] == was[0][0];
    forall l | 0 <= l < 4 ensures now[l] == Limb(d, l) {
      WholeLimb(was, l);
      WholeLimb(was, 0);
      if r {
        XorLimb(c, Polyval(), l);
        PolyvalLimbs();
        assert Xor(was[3], Zero(64)) == was[3];
      }
    }
    FromLimbs(now, d);
  }

  lemma PolyvalLimbs()
    ensures Limb(Polyval(), 0) == BitsAt(0, 0, 0) && Limb(Polyval(), 1) == BitsAt(57, 62, 63)
    ensures Limb(Polyval(), 2) == BitsAt(0, 0, 0) && Limb(Polyval(), 3) == Zero(64)
  {
    forall l, j | 0 <= l < 4 && 0 <= j < 64 ensures Limb(Polyval(), l)[j] == Polyval()[64 * l + j] {
    }
  }

  lemma ShiftedLimbs(was: seq<Bits64>, now: seq<Bits64>)
    requires |was| == 4 && |now| == 4
    requires forall l :: 0 <= l < 3 ==> now[l] == Or(ShiftDown(was[l], 1), ShiftUp(was[l + 1], 63, 64))
    requires now[3] == ShiftDown(was[3], 1)
    ensures Whole(now) == ShiftDown(Whole(was), 1)
  {
    var c := Whole(was);
    var d := ShiftDown(c, 1);
    forall l | 0 <= l < 4 ensures now[l] == Limb(d, l) {
      WholeLimb(was, l);
      if l < 3 {
        WholeLimb(was, l + 1);
      }
      forall j | 0 <= j < 64 ensures now[l][j] == Limb(d, l)[j] {
        assert Limb(d, l)[j] == d[64 * l + j];
        if j < 63 {
          assert was[l][j + 1] == c[64 * l + j + 1];
        } else if l < 3 {
          assert was[l + 1][0] == c[64 * (l + 1)];
        }
      }
    }
    FromLimbs(now, d);
  }
}
