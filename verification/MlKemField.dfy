/** The field Z_q of ML-KEM (q = 3329) and its root tables.

    The transform splits X^256 + 1 along a binary tree.  Node 1 is the root; the
    block at node k with modulus X^(2L) - c splits into X^L - z and X^L + z for
    z = Zeta(k), giving nodes 2k and 2k + 1.  `NodeConst(k)` is the constant c. */
module MlKemField {
  import opened ModArith
  import opened PowersOfTwo

  const Q := 3329

  type Zq = x: int | 0 <= x < 3329

  /** A polynomial of 256 reduced coefficients, lowest degree first. */
  type Poly = f: seq<Zq> | |f| == 256 witness seq(256, _ => 0)

  /** The `n` low bits of `i`, reversed. */
  function RevBits(i: nat, n: nat): (r: nat)
    ensures r < Pow2(n)
  {
    if n == 0 then 0 else i % 2 * Pow2(n - 1) + RevBits(i / 2, n - 1)
  }

  function BitRev7(i: nat): nat {
    RevBits(i, 7)
  }

  function Zeta(k: nat): Zq {
    Pow(17, BitRev7(k)) % Q
  }

  function Gamma(i: nat): Zq {
    Pow(17, 2 * BitRev7(i) + 1) % Q
  }

  /** The constant c of the modulus X^n - c at tree node `k`. */
  function NodeConst(k: nat): int
    requires 1 <= k
  {
    if k == 1 then -1
    else if k % 2 == 0 then Zeta(k / 2)
    else 0 - Zeta(k / 2)
  }

  lemma Pow17Squares()
    ensures Cong(Pow(17, 128), -1, Q)
  {
    SquareStep(1, 17, 289);
    SquareStep(2, 289, 296);
    SquareStep(4, 296, 1062);
    SquareStep(8, 1062, 2642);
    SquareStep(16, 2642, 2580);
    SquareStep(32, 2580, 1729);
    SquareStep(64, 1729, 3328);
  }

  lemma SquareStep(e: nat, x: int, y: int)
    requires e == 1 ==> x == 17
    requires e == 1 || Cong(Pow(17, e), x, Q)
    requires Cong(x * x, y, Q)
    ensures Cong(Pow(17, 2 * e), y, Q)
  {
    assert Pow(17, 1) == 17;
    PowAdd(17, e, e);
    CongMul(Pow(17, e), x, Pow(17, e), x, Q);
  }

  /** 17 is a 256th root of unity: shifting an exponent by 128 negates. */
  lemma Pow17Shift(e: nat)
    ensures Cong(Pow(17, e + 128), -Pow(17, e), Q)
  {
    Pow17Squares();
    PowAdd(17, e, 128);
    CongMul(Pow(17, e), Pow(17, e), Pow(17, 128), -1, Q);
  }

  lemma {:induction false} RevBitsShort(k: nat, n: nat)
    requires k < Pow2(n)
    ensures RevBits(k, n + 1) == 2 * RevBits(k, n)
  {
    if n != 0 {
      RevBitsShort(k / 2, n - 1);
      assert Pow2(n) == 2 * Pow2(n - 1);
      assert RevBits(k, n + 1) == k % 2 * Pow2(n) + RevBits(k / 2, n);
      Associate(k % 2, 2, Pow2(n - 1));
    }
  }

  lemma {:induction false} RevBitsTop(k: nat, n: nat)
    requires k < Pow2(n)
    ensures RevBits(Pow2(n) + k, n + 1) == RevBits(k, n + 1) + 1
  {
    if n != 0 {
      var j := k / 2;
      RevBitsTop(j, n - 1);
      assert (Pow2(n) + k) / 2 == Pow2(n - 1) + j;
      assert (Pow2(n) + k) % 2 == k % 2;
    }
  }

  lemma BitRevChildren(k: nat)
    requires k < 64
    ensures 2 * BitRev7(2 * k) == BitRev7(k)
    ensures BitRev7(2 * k + 1) == BitRev7(2 * k) + 64
    ensures BitRev7(64 + k) == BitRev7(k) + 1
  {
    assert Pow2(6) == 64;
    RevBitsShort(k, 6);
    RevBitsTop(k, 6);
    assert 2 * k / 2 == k && (2 * k + 1) / 2 == k;
  }

  lemma ZetaSquare(k: nat)
    ensures Cong(Zeta(k) * Zeta(k), Pow(17, 2 * BitRev7(k)), Q)
  {
    hide BitRev7, Pow;
    var e := BitRev7(k);
    CongReduce(Pow(17, e), Q);
    CongMul(Zeta(k), Pow(17, e), Zeta(k), Pow(17, e), Q);
    PowAdd(17, e, e);
  }

  /** The root used at a node squares to the node's constant. */
  lemma NodeSquare(k: nat)
    requires 1 <= k < 128
    ensures Cong(Zeta(k) * Zeta(k), NodeConst(k), Q)
  {
    ZetaSquare(k);
    if k == 1 {
      Pow17Squares();
      BitRevOne();
    } else {
      ChildSquare(k, k / 2);
    }
  }

  lemma ChildSquare(k: nat, j: nat)
    requires 1 <= j < 64 && (k == 2 * j || k == 2 * j + 1)
    ensures Cong(Pow(17, 2 * BitRev7(k)), NodeConst(k), Q)
  {
    hide BitRev7, Pow;
    BitRevChildren(j);
    PowOfShift(2 * BitRev7(k), BitRev7(j));
    assert NodeConst(k) == if k == 2 * j then Zeta(j) else 0 - Zeta(j);
  }

  lemma PowOfShift(d: nat, e: nat)
    requires d == e || d == e + 128
    ensures Cong(Pow(17, d), if d == e then Pow(17, e) % Q else 0 - Pow(17, e) % Q, Q)
  {
    CongReduce(Pow(17, e), Q);
    if d != e {
      Pow17Shift(e);
      CongSub(0, 0, Pow(17, e) % Q, Pow(17, e), Q);
    }
  }

  /** The leaves of the tree carry the base-multiplication constants. */
  lemma LeafConst(i: nat)
    requires i < 128
    ensures Cong(NodeConst(128 + i), Gamma(i), Q)
  {
    hide BitRev7, Pow;
    var j := i / 2;
    BitRevChildren(j);
    assert (128 + i) / 2 == 64 + j;
    if i % 2 == 0 {
      assert i == 2 * j && (128 + i) % 2 == 0;
    } else {
      assert i == 2 * j + 1 && (128 + i) % 2 == 1;
      PowOfShift(2 * BitRev7(i) + 1, BitRev7(j) + 1);
      CongReduce(Pow(17, 2 * BitRev7(i) + 1), Q);
    }
  }

  /** Every leaf constant is a root of X^128 + 1. */
  lemma GammaPower(i: nat)
    ensures Cong(Pow(Gamma(i), 128), -1, Q)
  {
    hide BitRev7, Pow;
    var e := 2 * BitRev7(i) + 1;
    CongReduce(Pow(17, e), Q);
    PowCong(Gamma(i), Pow(17, e), 128, Q);
    PowMul(17, e, 128);
    PowMul(17, 128, e);
    assert e * 128 == 128 * e;
    Pow17Squares();
    PowCong(Pow(17, 128), -1, e, Q);
    OddPowerOfMinusOne(BitRev7(i));
  }

  lemma {:induction false} OddPowerOfMinusOne(b: nat)
    ensures Pow(-1, 2 * b + 1) == -1
  {
    if b == 0 {
      assert Pow(-1, 1) == -1 * Pow(-1, 0);
    } else {
      OddPowerOfMinusOne(b - 1);
      assert Pow(-1, 2 * b + 1) == -1 * Pow(-1, 2 * b);
      assert Pow(-1, 2 * b) == -1 * Pow(-1, 2 * b - 1);
    }
  }

  /** Widths of the tree, counted in nodes per layer. */
  predicate IsLayerSize(n: nat) {
    n == 1 || n == 2 || n == 4 || n == 8 || n == 16 || n == 32 || n == 64
  }

  lemma MirrorChildren(k: nat, i: nat, j: nat, l: nat)
    requires j < 64 && l < 64 && BitRev7(j) + BitRev7(l) == 128
    requires (k == 2 * j && i == 2 * l + 1) || (k == 2 * j + 1 && i == 2 * l)
    ensures BitRev7(k) + BitRev7(i) == 128
  {
    BitRevChildren(j);
    BitRevChildren(l);
  }

  lemma BitRevOne()
    ensures BitRev7(1) == 64
  {
    assert RevBits(0, 6) == 0 by {
      assert RevBits(0, 3) == 0;
    }
    assert Pow2(6) == 64;
  }

  /** Reversed exponents of mirrored nodes of one layer add up to 128. */
  lemma {:induction false} MirrorExponents(n: nat, k: nat, i: nat)
    requires IsLayerSize(n) && n <= k < 2 * n && k + i == 3 * n - 1
    ensures BitRev7(k) + BitRev7(i) == 128
    decreases n
  {
    if n == 1 {
      BitRevOne();
    } else {
      var h, j, l := n / 2, k / 2, i / 2;
      MirrorHalves(n, k, i);
      MirrorExponents(h, j, l);
      MirrorChildren(k, i, j, l);
    }
  }

  lemma MirrorHalves(n: nat, k: nat, i: nat)
    requires IsLayerSize(n) && n <= k < 2 * n && k + i == 3 * n - 1 && n != 1
    ensures IsLayerSize(n / 2) && n / 2 <= k / 2 < 2 * (n / 2) <= 64
    ensures k / 2 + i / 2 == 3 * (n / 2) - 1
    ensures (k == 2 * (k / 2) && i == 2 * (i / 2) + 1) || (k == 2 * (k / 2) + 1 && i == 2 * (i / 2))
  {
  }

  /** The roots that the two transforms apply to one block multiply to -1. */
  lemma MirrorRoots(n: nat, k: nat, i: nat)
    requires IsLayerSize(n) && n <= k < 2 * n && k + i == 3 * n - 1
    ensures Cong(Zeta(k) * Zeta(i), -1, Q)
  {
    hide BitRev7, Pow;
    MirrorExponents(n, k, i);
    ComplementaryPowers(BitRev7(k), BitRev7(i));
  }

  lemma ComplementaryPowers(d: nat, e: nat)
    requires d + e == 128
    ensures Cong(Pow(17, d) % Q * (Pow(17, e) % Q), -1, Q)
  {
    CongReduce(Pow(17, d), Q);
    CongReduce(Pow(17, e), Q);
    CongMul(Pow(17, d) % Q, Pow(17, d), Pow(17, e) % Q, Pow(17, e), Q);
    PowAdd(17, d, e);
    Pow17Squares();
  }
}
