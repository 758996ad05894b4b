/** Powers of two, and the bits they pick out of a natural number. */
module PowersOfTwo {
  import opened ModArith

  function Pow2(n: nat): (p: nat)
    ensures 1 <= p
  {
    if n == 0 then 1 else 2 * Pow2(n - 1)
  }

  lemma Pow2Zero()
    ensures Pow2(0) == 1
  {
  }

  lemma Pow2One()
    ensures Pow2(1) == 2
  {
    assert Pow2(1) == 2 * Pow2(0);
  }

  lemma {:induction false} Pow2Add(a: nat, b: nat)
    ensures Pow2(a + b) == Pow2(a) * Pow2(b)
    decreases a
  {
    if a != 0 {
      Pow2Add(a - 1, b);
      Associate(2, Pow2(a - 1), Pow2(b));
    }
  }

  lemma Pow2Small()
    ensures Pow2(3) == 8 && Pow2(5) == 32 && Pow2(8) == 256
  {
    Pow2One();
    Pow2Add(1, 1);
    Pow2Add(1, 2);
    Pow2Add(2, 3);
    Pow2Add(3, 5);
  }

  lemma Pow2Of64()
    ensures Pow2(64) == 0x1_0000_0000_0000_0000
  {
    hide Pow2;
    Pow2One();
    Pow2Add(1, 1);
    Pow2Add(2, 2);
    Pow2Add(4, 4);
    Pow2Add(8, 8);
    Pow2Add(16, 16);
    Pow2Add(32, 32);
  }

  lemma NestedDivision(n: int, a: int, b: int)
    requires 0 < a && 0 < b
    ensures 0 < a * b && n / a / b == n / (a * b)
  {
    var q, s := n / a / b, n / a % b;
    var r := n % a;
    assert n == a * (n / a) + r && n / a == b * q + s;
    Distribute(b * q, s, a);
    Associate(a, b, q);
    assert n == q * (a * b) + (a * s + r);
    assert a * s <= a * (b - 1) == a * b - a by { Monotone(a, s, b - 1); Distribute(b, 1, a); }
    assert 0 <= a * s by { Monotone(a, 0, s); }
    Monotone(a, 1, b);
    DivModUnique(n, a * b, q, a * s + r);
  }

  lemma Monotone(a: int, x: int, y: int)
    requires 0 <= a && x <= y
    ensures a * x <= a * y
  {
  }

  lemma NaturalQuotient(a: nat, p: int)
    requires 0 < p
    ensures 0 <= a / p && 0 <= a % p < p
  {
    assert a == p * (a / p) + a % p;
    if a / p <= -1 {
      Monotone(p, a / p, -1);
    }
  }

  /** a >> n. */
  function Down(a: nat, n: nat): (r: nat)
    ensures r == a / Pow2(n)
  {
    NaturalQuotient(a, Pow2(n));
    a / Pow2(n)
  }

  // ----- bits -----

  /** Dropping one bit fewer appends that bit. */
  lemma NextBit(n: nat, bit: nat)
    ensures n / Pow2(bit) == 2 * (n / Pow2(bit + 1)) + n / Pow2(bit) % 2
  {
    NestedDivision(n, Pow2(bit), 2);
    assert Pow2(bit + 1) == Pow2(bit) * 2;
  }

  lemma LowBits(e: nat, i: nat)
    ensures e % Pow2(i + 1) == e % Pow2(i) + Pow2(i) * (e / Pow2(i) % 2)
  {
    var p := Pow2(i);
    assert Pow2(i + 1) == 2 * p;
    hide Pow2;
    var q, r := e / p, e % p;
    var h, bit := q / 2, q % 2;
    assert e == p * q + r && q == 2 * h + bit;
    Distribute(2 * h, bit, p);
    Associate(p, 2, h);
    Associate(2, p, h);
    assert e == h * (2 * p) + (p * bit + r);
    assert 0 <= p * bit <= p;
    DivModUnique(e, 2 * p, h, p * bit + r);
  }

  // ----- splitting below a power of two -----

  /** The largest power of two below n. */
  function Split(n: nat): (k: nat)
    requires 2 <= n
    ensures 1 <= k < n <= 2 * k
  {
    if n == 2 then 1 else 2 * Split((n + 1) / 2)
  }

  predicate PowerOfTwo(k: nat) {
    k == 1 || (k >= 2 && k % 2 == 0 && PowerOfTwo(k / 2))
  }

  lemma {:induction false} SplitIsPower(n: nat)
    requires 2 <= n
    ensures PowerOfTwo(Split(n))
  {
    if n != 2 {
      SplitIsPower((n + 1) / 2);
    }
  }

  lemma {:induction false} OnlySplit(p: nat, n: nat)
    requires PowerOfTwo(p) && p < n <= 2 * p
    ensures 2 <= n && p == Split(n)
    decreases n
  {
    if n != 2 {
      OnlySplit(p / 2, (n + 1) / 2);
    }
  }

  /** It is a power of two with p < n <= 2 p, and the only one. */
  lemma SplitUnique(p: nat, n: nat)
    requires 2 <= n
    ensures p == Split(n) <==> PowerOfTwo(p) && p < n <= 2 * p
  {
    SplitIsPower(n);
    if PowerOfTwo(p) && p < n <= 2 * p {
      OnlySplit(p, n);
    }
  }

  function BitLength(n: nat): nat {
    if n == 0 then 0 else 1 + BitLength(n / 2)
  }

  /** 1 << (bit_length(n - 1) - 1) is that power too. */
  lemma {:induction false} SplitByBitLength(n: nat)
    requires 2 <= n
    ensures 1 <= BitLength(n - 1) && Pow2(BitLength(n - 1) - 1) == Split(n)
  {
    if n == 2 {
      Pow2Zero();
    } else {
      SplitByBitLength((n + 1) / 2);
      assert (n - 1) / 2 == (n + 1) / 2 - 1;
    }
  }
}
