/** Arithmetic modulo a prime: Euclid's lemma, Fermat's little theorem and the
    inverse a^(p-2), and the order of an element. */
module PrimeField {
  import opened ModArith

  predicate Prime(p: int) {
    2 <= p && forall d | 2 <= d < p :: p % d != 0
  }

  lemma DividesProduct(a: int, b: int, m: int)
    requires 0 < m && a % m == 0
    ensures a * b % m == 0 && b * a % m == 0
  {
    CongMul(a, 0, b, b, m);
    assert 0 * b == 0;
  }

  /** A prime that divides a product of a < p and b divides b. */
  lemma {:induction false} EuclidBelow(p: int, a: nat, b: int)
    requires Prime(p) && 0 < a < p && a * b % p == 0
    ensures b % p == 0
    decreases a
  {
    if a != 1 {
      var k, r := p / a, p % a;
      assert p == a * k + r;
      assert r != 0;
      assert r * b == b * p - k * (a * b) by {
        Distribute(a * k, r, b);
        Associate(a, k, b);
        Associate(k, a, b);
      }
      DividesProduct(a * b, k, p);
      MultipleOf(b, p);
      CongSub(b * p, 0, k * (a * b), 0, p);
      EuclidBelow(p, r, b);
    }
  }

  lemma MultipleOf(k: int, m: int)
    requires 0 < m
    ensures k * m % m == 0
  {
    AddMultiple(0, k, m);
  }

  /** Euclid's lemma. */
  lemma Euclid(p: int, a: int, b: int)
    requires Prime(p) && a * b % p == 0 && a % p != 0
    ensures b % p == 0
  {
    CongReduce(a, p);
    CongMul(a % p, a, b, b, p);
    EuclidBelow(p, a % p, b);
  }

  // ----- binomials and Fermat -----

  function Choose(n: nat, k: nat): nat {
    if k == 0 then 1 else if n == 0 then 0 else Choose(n - 1, k - 1) + Choose(n - 1, k)
  }

  lemma {:induction false} ChooseAbove(n: nat, k: nat)
    requires n < k
    ensures Choose(n, k) == 0
  {
    if n != 0 {
      ChooseAbove(n - 1, k - 1);
      ChooseAbove(n - 1, k);
    }
  }

  lemma {:induction false} ChooseDiagonal(n: nat)
    ensures Choose(n, n) == 1
  {
    if n != 0 {
      ChooseDiagonal(n - 1);
      ChooseAbove(n - 1, n);
    }
  }

  /** k C(n, k) = n C(n - 1, k - 1). */
  lemma {:induction false} Absorption(n: nat, k: nat)
    requires 1 <= n && 1 <= k
    ensures k * Choose(n, k) == n * Choose(n - 1, k - 1)
    decreases n
  {
    var c, d := Choose(n - 1, k - 1), Choose(n - 1, k);
    assert Choose(n, k) == c + d;
    if n == 1 {
      assert d == 0 && (k != 1 ==> c == 0);
    } else if k == 1 {
      Absorption(n - 1, 1);
    } else {
      var e, f := Choose(n - 2, k - 2), Choose(n - 2, k - 1);
      Absorption(n - 1, k);
      Absorption(n - 1, k - 1);
      assert c == e + f;
      Distribute(c, d, k);
      Distribute(e, f, n - 1);
      Distribute(k, 1, c);
      Distribute(n, 1, c);
    }
  }

  /** A prime divides its inner binomials. */
  lemma PrimeDividesChoose(p: int, k: nat)
    requires Prime(p) && 1 <= k < p
    ensures Choose(p, k) % p == 0
  {
    hide Choose;
    Absorption(p, k);
    MultipleOf(Choose(p - 1, k - 1), p);
    Euclid(p, k, Choose(p, k)) by {
      assert p * Choose(p - 1, k - 1) == Choose(p - 1, k - 1) * p;
      DivModUnique(k, p, 0, k);
    }
  }

  /** C(n, 0) + C(n, 1) a + ... + C(n, m) a^m. */
  function Binomials(a: int, n: nat, m: nat): int {
    Choose(n, m) * Pow(a, m) + if m == 0 then 0 else Binomials(a, n, m - 1)
  }

  lemma {:induction false} Pascal(a: int, n: nat, m: nat)
    requires 1 <= m
    ensures Binomials(a, n + 1, m) == Binomials(a, n, m) + a * Binomials(a, n, m - 1)
    decreases m
  {
    var c, d, x := Choose(n, m - 1), Choose(n, m), Pow(a, m - 1);
    assert Pow(a, m) == a * x && Choose(n + 1, m) == c + d;
    Distribute(c, d, a * x);
    Associate(a, c, x);
    Associate(c, a, x);
    if m == 1 {
      assert Binomials(a, n + 1, 0) == 1 && Binomials(a, n, 0) == 1 && c == 1 && x == 1;
    } else {
      Pascal(a, n, m - 1);
      Distribute(c * x, Binomials(a, n, m - 2), a);
    }
  }

  lemma {:induction false} BinomialTheorem(a: int, n: nat)
    ensures Pow(a + 1, n) == Binomials(a, n, n)
  {
    if n != 0 {
      BinomialTheorem(a, n - 1);
      Pascal(a, n - 1, n);
      ChooseAbove(n - 1, n);
      Distribute(a, 1, Binomials(a, n - 1, n - 1));
    }
  }

  lemma {:induction false} InnerTermsVanish(p: int, a: int, m: nat)
    requires Prime(p) && m < p
    ensures Cong(Binomials(a, p, m), 1, p)
    decreases m
  {
    if m == 0 {
      assert Binomials(a, p, 0) == 1;
    } else {
      InnerTermsVanish(p, a, m - 1);
      PrimeDividesChoose(p, m);
      DividesProduct(Choose(p, m), Pow(a, m), p);
      CongAdd(Choose(p, m) * Pow(a, m), 0, Binomials(a, p, m - 1), 1, p);
    }
  }

  /** Fermat's little theorem. */
  lemma {:induction false} Fermat(p: int, a: nat)
    requires Prime(p)
    ensures Cong(Pow(a, p), a, p)
    decreases a
  {
    if a == 0 {
      assert Pow(0, p) == 0 * Pow(0, p - 1);
    } else {
      Fermat(p, a - 1);
      BinomialTheorem(a - 1, p);
      InnerTermsVanish(p, a - 1, p - 1);
      ChooseDiagonal(p);
      CongAdd(Pow(a - 1, p), a - 1, Binomials(a - 1, p, p - 1), 1, p);
    }
  }

  /** a^(p - 2) inverts a modulo the prime p. */
  lemma FermatInverse(p: int, a: nat)
    requires Prime(p) && a % p != 0
    ensures Cong(a * Pow(a, p - 2), 1, p)
  {
    Fermat(p, a);
    var x := Pow(a, p - 1);
    assert x == a * Pow(a, p - 2) && Pow(a, p) == a * x;
    Distribute(x, 1, a);
    CongSub(a * x, a, a, a, p);
    Euclid(p, a, x - 1);
    CongAdd(x - 1, 0, 1, 1, p);
  }

  /** Inverses modulo m are unique. */
  lemma InverseUnique(a: int, x: int, y: int, m: int)
    requires 0 < m && Cong(a * x, 1, m) && Cong(a * y, 1, m)
    ensures Cong(x, y, m)
  {
    CongMul(a * x, 1, y, y, m);
    CongMul(a * y, 1, x, x, m);
    Associate(a, x, y);
    Associate(a, y, x);
  }

  // ----- the order of an element -----

  lemma {:induction false} PowOfPeriod(g: int, n: nat, k: nat, m: int)
    requires 0 < m && Cong(Pow(g, n), 1, m)
    ensures Cong(Pow(g, k * n), 1, m)
    decreases k
  {
    if k == 0 {
      assert k * n == 0;
    } else {
      PowOfPeriod(g, n, k - 1, m);
      assert k * n == n + (k - 1) * n;
      PowAdd(g, n, (k - 1) * n);
      CongMul(Pow(g, n), 1, Pow(g, (k - 1) * n), 1, m);
    }
  }

  /** With period n, a power only depends on its exponent modulo n. */
  lemma PowModPeriod(g: int, n: nat, e: nat, m: int)
    requires 0 < m && 1 <= n && Cong(Pow(g, n), 1, m)
    ensures Cong(Pow(g, e), Pow(g, e % n), m)
  {
    var k := e / n;
    assert e == k * n + e % n;
    PowOfPeriod(g, n, k, m);
    PowAdd(g, k * n, e % n);
    CongMul(Pow(g, k * n), 1, Pow(g, e % n), Pow(g, e % n), m);
  }

  /** A prime period n of an element other than 1 is its order. */
  lemma {:induction false} NoSmallerPeriod(g: int, n: int, k: nat, m: int)
    requires 0 < m && Prime(n) && Cong(Pow(g, n), 1, m) && !Cong(g, 1, m)
    requires 0 < k < n
    ensures !Cong(Pow(g, k), 1, m)
    decreases k
  {
    assert Pow(g, 1) == g * Pow(g, 0);
    if k != 1 && Cong(Pow(g, k), 1, m) {
      assert n % k != 0;
      PowModPeriod(g, k, n, m);
      NoSmallerPeriod(g, n, n % k, m);
    }
  }

  /** Powers of g agree exactly when the exponents agree modulo the order. */
  lemma PowersAgree(g: int, n: int, a: nat, b: nat, m: int)
    requires 0 < m && Prime(n) && Cong(Pow(g, n), 1, m) && !Cong(g, 1, m)
    ensures Cong(Pow(g, a), Pow(g, b), m) <==> Cong(a, b, n)
  {
    PowModPeriod(g, n, a, m);
    PowModPeriod(g, n, b, m);
    if a % n < b % n {
      DistinctPowers(g, n, a % n, b % n, m);
    } else if b % n < a % n {
      DistinctPowers(g, n, b % n, a % n, m);
    }
  }

  lemma DistinctPowers(g: int, n: int, a: nat, b: nat, m: int)
    requires 0 < m && Prime(n) && Cong(Pow(g, n), 1, m) && !Cong(g, 1, m)
    requires a < b < n
    ensures !Cong(Pow(g, a), Pow(g, b), m)
  {
    hide Prime, Pow;
    if Cong(Pow(g, a), Pow(g, b), m) {
      var c := n - a;
      PowAdd(g, a, c);
      PowAdd(g, b, c);
      CongMul(Pow(g, a), Pow(g, b), Pow(g, c), Pow(g, c), m);
      PowAdd(g, b - a, n);
      assert a + c == n && b + c == (b - a) + n;
      CongMul(Pow(g, b - a), Pow(g, b - a), Pow(g, n), 1, m);
      NoSmallerPeriod(g, n, b - a, m);
    }
  }
}
