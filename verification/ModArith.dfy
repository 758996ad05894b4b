/** Congruences modulo a positive integer, and powers.  Everything is stated
    with Dafny's Euclidean `%`, whose result always lies in [0, m). */
module ModArith {

  /** `a` and `b` leave the same remainder modulo `m`. */
  predicate Cong(a: int, b: int, m: int)
    requires 0 < m
  {
    a % m == b % m
  }

  /** Zero is the only multiple of `m` strictly between `-m` and `m`. */
  lemma NoMultipleWithin(d: int, m: int)
    requires -m < d * m < m
    ensures d == 0
  {
    if d > 0 {
      MulAtLeast(d, m);
    } else if d < 0 {
      MulAtLeast(-d, m);
    }
  }

  lemma MulAtLeast(d: int, m: int)
    requires 1 <= d && 0 <= m
    ensures d * m >= m
  {
    assert d * m == (d - 1) * m + m;
  }

  /** Quotient and remainder are unique. */
  lemma DivModUnique(x: int, m: int, q: int, r: int)
    requires 0 <= r < m && x == q * m + r
    ensures x / m == q && x % m == r
  {
    var d := x / m - q;
    assert d * m == r - x % m by {
      assert x == m * (x / m) + x % m;
      assert d * m == m * (x / m) - q * m;
    }
    NoMultipleWithin(d, m);
  }

  /** A multiple of the modulus may be added freely. */
  lemma AddMultiple(x: int, k: int, m: int)
    requires 0 < m
    ensures (x + k * m) % m == x % m
  {
    assert x == (x / m) * m + x % m;
    assert x + k * m == (x / m + k) * m + x % m;
    DivModUnique(x + k * m, m, x / m + k, x % m);
  }

  /** Congruent numbers differ by a multiple of the modulus. */
  lemma Difference(a: int, b: int, m: int) returns (k: int)
    requires 0 < m && Cong(a, b, m)
    ensures a == b + k * m
  {
    k := a / m - b / m;
    assert a == m * (a / m) + a % m;
    assert b == m * (b / m) + b % m;
    assert k * m == m * (a / m) - m * (b / m);
  }

  lemma CongReduce(a: int, m: int)
    requires 0 < m
    ensures Cong(a % m, a, m)
    ensures 0 <= a % m < m
  {
    assert a == (a / m) * m + a % m;
    AddMultiple(a % m, a / m, m);
  }

  /** The converse of `Difference`. */
  lemma CongFrom(a: int, b: int, k: int, m: int)
    requires 0 < m && a == b + k * m
    ensures Cong(a, b, m)
  {
    AddMultiple(b, k, m);
  }

  lemma CongAdd(a: int, a': int, b: int, b': int, m: int)
    requires 0 < m && Cong(a, a', m) && Cong(b, b', m)
    ensures Cong(a + b, a' + b', m)
  {
    var k := Difference(a, a', m);
    var l := Difference(b, b', m);
    Distribute(k, l, m);
    CongFrom(a + b, a' + b', k + l, m);
  }

  lemma CongSub(a: int, a': int, b: int, b': int, m: int)
    requires 0 < m && Cong(a, a', m) && Cong(b, b', m)
    ensures Cong(a - b, a' - b', m)
  {
    var k := Difference(a, a', m);
    var l := Difference(b, b', m);
    Distribute(k, l, m);
    CongFrom(a - b, a' - b', k - l, m);
  }

  lemma Distribute(x: int, y: int, z: int)
    ensures (x + y) * z == x * z + y * z
    ensures (x - y) * z == x * z - y * z
    ensures z * (x + y) == z * x + z * y
    ensures z * (x - y) == z * x - z * y
  {
  }

  lemma NonNegative(a: nat, b: nat)
    ensures 0 <= a * b
  {
  }

  lemma Associate(x: int, y: int, z: int)
    ensures (x * y) * z == x * (y * z) == y * (x * z)
  {
  }

  lemma CongMul(a: int, a': int, b: int, b': int, m: int)
    requires 0 < m && Cong(a, a', m) && Cong(b, b', m)
    ensures Cong(a * b, a' * b', m)
  {
    var k := Difference(a, a', m);
    var l := Difference(b, b', m);
    CongFrom(a * b, a' * b, k * b, m) by {
      Distribute(a', k * m, b);
      Associate(k, m, b);
      Associate(k, b, m);
      assert (k * m) * b == (k * b) * m;
    }
    CongFrom(a' * b, a' * b', a' * l, m) by {
      Distribute(b', l * m, a');
      Associate(a', l, m);
    }
  }

  function Pow(b: int, e: nat): int {
    if e == 0 then 1 else b * Pow(b, e - 1)
  }

  lemma {:induction false} PowAdd(b: int, d: nat, e: nat)
    ensures Pow(b, d + e) == Pow(b, d) * Pow(b, e)
    decreases d
  {
    if d != 0 {
      PowAdd(b, d - 1, e);
      assert Pow(b, d + e) == b * Pow(b, d + e - 1);
      assert b * (Pow(b, d - 1) * Pow(b, e)) == (b * Pow(b, d - 1)) * Pow(b, e);
    }
  }

  lemma {:induction false} PowMul(b: int, d: nat, e: nat)
    ensures Pow(Pow(b, d), e) == Pow(b, d * e)
    decreases e
  {
    if e == 0 {
      assert d * e == 0;
    } else {
      PowMul(b, d, e - 1);
      assert d * e == d + d * (e - 1);
      PowAdd(b, d, d * (e - 1));
    }
  }

  lemma {:induction false} PowProduct(a: int, b: int, e: nat)
    ensures Pow(a, e) * Pow(b, e) == Pow(a * b, e)
  {
    if e != 0 {
      PowProduct(a, b, e - 1);
      var x, y := Pow(a, e - 1), Pow(b, e - 1);
      Associate(a, x, b * y);
      Associate(x, b, y);
      Associate(a, b, x * y);
    }
  }

  lemma {:induction false} PowCong(b: int, b': int, e: nat, m: int)
    requires 0 < m && Cong(b, b', m)
    ensures Cong(Pow(b, e), Pow(b', e), m)
  {
    if e != 0 {
      PowCong(b, b', e - 1, m);
      CongMul(b, b', Pow(b, e - 1), Pow(b', e - 1), m);
    }
  }

  lemma {:induction false} PowOne(e: nat)
    ensures Pow(1, e) == 1
  {
    if e != 0 {
      PowOne(e - 1);
    }
  }
}
