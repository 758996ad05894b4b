/** The field GF(2^8) of AES and the S-box built from it (section 5.1.1 of
    FIPS 197). */
module Gf256 {
  import opened Blocks

  // ----- multiplication -----

  function Shl(b: Byte): Byte {
    b << 1
  }

  predicate Top(b: Byte) {
    b & 0x80 != 0
  }

  /** What 0x11b adds when the top bit moves out. */
  function Reduction(b: Byte): Byte {
    if Top(b) then 0x1b else 0
  }

  /** Multiplication by x. */
  function Double(a: Byte): Byte {
    XorByte(Shl(a), Reduction(a))
  }

  function Pick(b: Byte, a: Byte): Byte {
    if b & 1 != 0 then a else 0
  }

  function Half(b: Byte): Byte {
    b >> 1
  }

  /** What the n last rounds of the multiplication add. */
  function MulFrom(a: Byte, b: Byte, n: nat): Byte
    decreases n
  {
    if n == 0 then 0 else XorByte(Pick(b, a), MulFrom(Double(a), Half(b), n - 1))
  }

  function Mul(a: Byte, b: Byte): Byte {
    MulFrom(a, b, 8)
  }

  lemma XorAssociates(x: Byte, y: Byte, z: Byte)
    ensures XorByte(XorByte(x, y), z) == XorByte(x, XorByte(y, z))
  {
    hide XorByte;
    XorIs(x, y);
    XorIs(y, z);
    XorOnce(x, y, z);
  }

  lemma XorIs(x: Byte, y: Byte)
    ensures XorByte(x, y) == x ^ y
  {
  }

  lemma XorOnce(x: Byte, y: Byte, z: Byte)
    ensures XorByte(x ^ y, z) == XorByte(x, y ^ z)
  {
  }

  lemma XorInterchange(a: Byte, b: Byte, c: Byte, d: Byte)
    ensures XorByte(XorByte(a, b), XorByte(c, d)) == XorByte(XorByte(a, c), XorByte(b, d))
  {
    hide XorByte;
    XorAssociates(a, b, XorByte(c, d));
    XorAssociates(b, c, d);
    XorByteTwice(b, c);
    XorAssociates(c, b, d);
    XorAssociates(a, c, XorByte(b, d));
  }

  /** gf_mul: eight masked additions of doublings. */
  method GfMul(a: Byte, b: Byte) returns (p: Byte)
    ensures p == Mul(a, b)
  {
    hide XorByte, Double, Half, Pick;
    p := 0;
    var x, y := a, b;
    XorByteTwice(Mul(a, b), 0);
    for i := 0 to 8
      invariant XorByte(p, MulFrom(x, y, 8 - i)) == Mul(a, b)
    {
      XorAssociates(p, Pick(y, x), MulFrom(Double(x), Half(y), 7 - i));
      p := XorByte(p, Pick(y, x));
      x := Double(x);
      y := Half(y);
    }
    XorByteTwice(p, 0);
  }

  lemma PickLinear(b: Byte, c: Byte, a: Byte)
    ensures Pick(XorByte(b, c), a) == XorByte(Pick(b, a), Pick(c, a))
    ensures Half(XorByte(b, c)) == XorByte(Half(b), Half(c))
  {
  }

  /** Multiplication distributes over addition in its second operand. */
  lemma {:induction false} MulFromLinear(a: Byte, b: Byte, c: Byte, n: nat)
    ensures MulFrom(a, XorByte(b, c), n) == XorByte(MulFrom(a, b, n), MulFrom(a, c, n))
    decreases n
  {
    hide XorByte, Double, Half, Pick;
    if n == 0 {
      XorByteTwice(0, 0);
    } else {
      PickLinear(b, c, a);
      MulFromLinear(Double(a), Half(b), Half(c), n - 1);
      XorInterchange(Pick(b, a), Pick(c, a), MulFrom(Double(a), Half(b), n - 1), MulFrom(Double(a), Half(c), n - 1));
    }
  }

  lemma MulLinear(a: Byte, b: Byte, c: Byte)
    ensures Mul(a, XorByte(b, c)) == XorByte(Mul(a, b), Mul(a, c))
  {
    hide XorByte, MulFrom;
    MulFromLinear(a, b, c, 8);
  }

  lemma ShlOfXor(x: Byte, y: Byte)
    ensures Shl(XorByte(x, y)) == XorByte(Shl(x), Shl(y))
    ensures Top(XorByte(x, y)) <==> Top(x) != Top(y)
  {
  }

  lemma DoubleLinear(x: Byte, y: Byte)
    ensures Double(XorByte(x, y)) == XorByte(Double(x), Double(y))
    ensures Double(0) == 0
  {
    hide Shl, Top, XorByte;
    ShlOfXor(x, y);
    XorByteTwice(0, 0x1b);
    XorByteTwice(0x1b, 0);
    XorByteTwice(0, 0);
    XorSelf(0x1b);
    XorInterchange(Shl(x), Shl(y), Reduction(x), Reduction(y));
    ShlZero();
  }

  lemma XorSelf(x: Byte)
    ensures XorByte(x, x) == 0
  {
  }

  lemma ShlZero()
    ensures Shl(0) == 0 && !Top(0)
  {
  }

  lemma DoubleOfPick(b: Byte, a: Byte)
    ensures Double(Pick(b, a)) == Pick(b, Double(a))
  {
  }

  /** Multiplication commutes with doubling its first operand. */
  lemma {:induction false} MulFromDouble(a: Byte, b: Byte, n: nat)
    ensures MulFrom(Double(a), b, n) == Double(MulFrom(a, b, n))
    decreases n
  {
    hide XorByte, Double, Half, Pick;
    if n == 0 {
      DoubleLinear(0, 0);
    } else {
      MulFromDouble(Double(a), Half(b), n - 1);
      DoubleOfPick(b, a);
      DoubleLinear(Pick(b, a), MulFrom(Double(a), Half(b), n - 1));
    }
  }

  lemma PickOfSum(b: Byte, x: Byte, y: Byte)
    ensures Pick(b, XorByte(x, y)) == XorByte(Pick(b, x), Pick(b, y))
  {
  }

  /** Multiplication distributes over addition in its first operand too. */
  lemma {:induction false} MulFromLeftLinear(a: Byte, c: Byte, b: Byte, n: nat)
    ensures MulFrom(XorByte(a, c), b, n) == XorByte(MulFrom(a, b, n), MulFrom(c, b, n))
    decreases n
  {
    hide XorByte, Double, Half, Pick;
    if n == 0 {
      XorByteTwice(0, 0);
    } else {
      PickOfSum(b, a, c);
      DoubleLinear(a, c);
      MulFromLeftLinear(Double(a), Double(c), Half(b), n - 1);
      XorInterchange(Pick(b, a), Pick(b, c), MulFrom(Double(a), Half(b), n - 1), MulFrom(Double(c), Half(b), n - 1));
    }
  }

  lemma MulLeftLinear(a: Byte, c: Byte, b: Byte)
    ensures Mul(XorByte(a, c), b) == XorByte(Mul(a, b), Mul(c, b))
  {
    hide XorByte, MulFrom;
    MulFromLeftLinear(a, c, b, 8);
  }

  // ----- doubling the second operand -----

  function Halves(b: Byte, n: nat): Byte
    decreases n
  {
    if n == 0 then b else Halves(Half(b), n - 1)
  }

  function Doubles(a: Byte, n: nat): Byte
    decreases n
  {
    if n == 0 then a else Doubles(Double(a), n - 1)
  }

  /** The last round, split off. */
  lemma {:induction false} LastRound(a: Byte, b: Byte, n: nat)
    ensures MulFrom(a, b, n + 1) == XorByte(MulFrom(a, b, n), Pick(Halves(b, n), Doubles(a, n)))
    decreases n
  {
    hide XorByte, Double, Half, Pick;
    if n == 0 {
      XorByteTwice(Pick(b, a), 0);
      XorByteTwice(0, Pick(b, a));
    } else {
      LastRound(Double(a), Half(b), n - 1);
      XorAssociates(Pick(b, a), MulFrom(Double(a), Half(b), n - 1), Pick(Halves(b, n), Doubles(a, n)));
    }
  }

  predicate Odd(b: Byte) {
    b & 1 != 0
  }

  predicate SameLow(b: Byte, c: Byte, n: nat)
    decreases n
  {
    n == 0 || (Odd(b) == Odd(c) && SameLow(Half(b), Half(c), n - 1))
  }

  lemma PickSame(b: Byte, c: Byte, a: Byte)
    requires Odd(b) == Odd(c)
    ensures Pick(b, a) == Pick(c, a)
  {
  }

  lemma {:induction false} LowBitsOnly(a: Byte, b: Byte, c: Byte, n: nat)
    requires SameLow(b, c, n)
    ensures MulFrom(a, b, n) == MulFrom(a, c, n)
    decreases n
  {
    hide XorByte, Double, Half, Pick, Odd;
    if n != 0 {
      PickSame(b, c, a);
      LowBitsOnly(Double(a), Half(b), Half(c), n - 1);
    }
  }

  lemma DoubleParts(b: Byte, a: Byte)
    ensures Double(b) == XorByte(Shl(b), Reduction(b)) && Pick(Shl(b), a) == 0
  {
  }

  lemma SameNext(b: Byte, c: Byte, n: nat)
    requires Odd(b) == Odd(c) && SameLow(Half(b), Half(c), n)
    ensures SameLow(b, c, n + 1)
  {
    hide Odd, Half;
  }

  lemma SameNone(b: Byte, c: Byte)
    ensures SameLow(b, c, 0)
  {
  }

  lemma SevenSame(b: Byte)
    ensures SameLow(Half(Shl(b)), b, 7)
  {
    hide Half, Odd, Shl, SameLow;
    SevenBits(b);
    var c := Half(Shl(b));
    var c1, b1 := Half(c), Half(b);
    var c2, b2 := Half(c1), Half(b1);
    var c3, b3 := Half(c2), Half(b2);
    var c4, b4 := Half(c3), Half(b3);
    var c5, b5 := Half(c4), Half(b4);
    var c6, b6 := Half(c5), Half(b5);
    SameNone(Half(c6), Half(b6));
    SameNext(c6, b6, 0);
    SameNext(c5, b5, 1);
    SameNext(c4, b4, 2);
    SameNext(c3, b3, 3);
    SameNext(c2, b2, 4);
    SameNext(c1, b1, 5);
    SameNext(c, b, 6);
  }

  lemma SevenHalves(b: Byte)
    ensures Halves(b, 7) == b >> 7
  {
    hide Half;
    HalfTwice(b);
    assert Halves(b, 2) == b >> 2;
    assert Halves(b >> 2, 2) == b >> 4;
    assert Halves(b, 7) == Halves(b >> 2, 5);
    assert Halves(b >> 2, 5) == Halves(b >> 4, 3);
    assert Halves(b >> 4, 3) == Halves(b >> 6, 1);
  }

  lemma HalfTwice(b: Byte)
    ensures Half(b) == b >> 1 && Half(b >> 1) == b >> 2 && Half(b >> 2) == b >> 3 && Half(b >> 3) == b >> 4
    ensures Half(b >> 4) == b >> 5 && Half(b >> 5) == b >> 6 && Half(b >> 6) == b >> 7
  {
  }

  lemma SevenBits(b: Byte)
    ensures var c := Half(Shl(b));
            var c1, b1 := Half(c), Half(b); var c2, b2 := Half(c1), Half(b1); var c3, b3 := Half(c2), Half(b2);
            var c4, b4 := Half(c3), Half(b3); var c5, b5 := Half(c4), Half(b4); var c6, b6 := Half(c5), Half(b5);
            Odd(c) == Odd(b) && Odd(c1) == Odd(b1) && Odd(c2) == Odd(b2) && Odd(c3) == Odd(b3)
            && Odd(c4) == Odd(b4) && Odd(c5) == Odd(b5) && Odd(c6) == Odd(b6)
  {
  }

  /** x^8 = x^4 + x^3 + x + 1: eight doublings are a multiplication by 0x1b. */
  lemma ReductionIsEightDoublings(a: Byte)
    ensures Mul(a, 0x1b) == Doubles(Double(a), 7)
  {
    hide Double, XorByte, MulFrom, Half, Pick, Doubles;
    HalfTwice(0x1b);
    PickBits(a);
    var a1 := Double(a);
    var a2 := Double(a1);
    var a3 := Double(a2);
    var a4 := Double(a3);
    MulUnroll(a, 0x1b, 6);
    MulUnroll(a2, 0x06, 4);
    MulUnroll(a4, 0x01, 2);
    PickBits(a1);
    PickBits(a2);
    PickBits(a3);
    PickBits(a4);
    PickBits(Double(a4));
    MulZero(Double(Double(a4)), 2);
    XorByteTwice(0, XorByte(a3, XorByte(a4, 0)));
    XorByteTwice(XorByte(a3, XorByte(a4, 0)), 0);
    XorByteTwice(a4, 0);
    XorByteTwice(0, 0);
    DoublesEight(a);
    EightIs(a);
  }

  /** The bits that matter of 0x1b, 0x06 and 0x01. */
  lemma PickBits(a: Byte)
    ensures Pick(0x1b, a) == a && Pick(0x0d, a) == a && Pick(0x06, a) == 0 && Pick(0x03, a) == a
    ensures Pick(0x01, a) == a && Pick(0, a) == 0
    ensures Half(0x1b) == 0x0d && Half(0x0d) == 0x06 && Half(0x06) == 0x03 && Half(0x03) == 0x01
    ensures Half(0x01) == 0 && Half(0) == 0
  {
  }

  lemma MulUnroll(a: Byte, b: Byte, n: nat)
    ensures MulFrom(a, b, n + 2)
         == XorByte(Pick(b, a), XorByte(Pick(Half(b), Double(a)), MulFrom(Double(Double(a)), Half(Half(b)), n)))
  {
    hide Double, Pick, Half, XorByte;
  }

  lemma {:induction false} MulZero(a: Byte, n: nat)
    ensures MulFrom(a, 0, n) == 0
    decreases n
  {
    hide Double;
    if n != 0 {
      MulZero(Double(a), n - 1);
    }
  }

  lemma DoublesEight(a: Byte)
    ensures Doubles(Double(a), 7) == Double(Double(Double(Double(Double(Double(Double(Double(a))))))))
  {
    hide Double;
    var b := Double(Double(Double(a)));
    assert Doubles(Double(a), 7) == Doubles(b, 5);
    assert Doubles(b, 5) == Doubles(Double(Double(Double(b))), 2);
  }

  lemma EightIs(a: Byte)
    ensures var a1 := Double(a); var a3 := Double(Double(a1)); var a4 := Double(a3);
            Double(Double(Double(Double(a4)))) == XorByte(a, XorByte(a1, XorByte(a3, a4)))
  {
  }

  /** Multiplication commutes with doubling its second operand. */
  lemma MulDouble(a: Byte, b: Byte)
    ensures Mul(a, Double(b)) == Double(Mul(a, b))
  {
    hide XorByte, Double, Half, Pick, MulFrom, Shl, Reduction, Halves, Doubles, SameLow;
    DoubleParts(b, a);
    MulLinear(a, Shl(b), Reduction(b));
    MulFirst(a, Shl(b));
    SevenSame(b);
    SevenHalves(b);
    LowBitsOnly(Double(a), Half(Shl(b)), b, 7);
    XorByteTwice(MulFrom(Double(a), b, 7), 0);
    XorByteTwice(0, MulFrom(Double(a), b, 7));
    MulFromDouble(a, b, 8);
    LastRound(Double(a), b, 7);
    ReductionIsEightDoublings(a);
    MulZero(a, 8);
    ReductionPick(b, a);
  }

  lemma MulFirst(a: Byte, b: Byte)
    ensures Mul(a, b) == XorByte(Pick(b, a), MulFrom(Double(a), Half(b), 7))
  {
    hide XorByte, Double, Half, Pick;
  }

  lemma ReductionPick(b: Byte, a: Byte)
    ensures Mul(a, Reduction(b)) == Pick(b >> 7, Mul(a, 0x1b))
  {
    hide MulFrom;
    MulZero(a, 8);
  }

  // ----- associativity -----

  lemma {:induction false} MulOfMulFrom(a: Byte, b: Byte, c: Byte, n: nat)
    ensures Mul(a, MulFrom(b, c, n)) == MulFrom(Mul(a, b), c, n)
    decreases n
  {
    hide XorByte, Double, Half, Pick, Mul;
    if n == 0 {
      MulByZero(a);
    } else {
      MulOfMulFrom(a, Double(b), Half(c), n - 1);
      MulDouble(a, b);
      MulLinear(a, Pick(c, b), MulFrom(Double(b), Half(c), n - 1));
      MulOfPick(a, b, c);
    }
  }

  lemma MulByZero(a: Byte)
    ensures Mul(a, 0) == 0
  {
    MulZero(a, 8);
  }

  lemma MulOfPick(a: Byte, b: Byte, c: Byte)
    ensures Mul(a, Pick(c, b)) == Pick(c, Mul(a, b))
  {
    hide Mul;
    MulByZero(a);
  }

  lemma MulAssociates(a: Byte, b: Byte, c: Byte)
    ensures Mul(a, Mul(b, c)) == Mul(Mul(a, b), c)
  {
    hide MulFrom;
    MulOfMulFrom(a, b, c, 8);
  }

  // ----- powers and the inverse -----

  function Pow(x: Byte, n: nat): Byte {
    if n == 0 then 1 else Mul(x, Pow(x, n - 1))
  }

  lemma MulOne(x: Byte)
    ensures Mul(1, x) == x && Mul(x, 1) == x
  {
    hide Double;
    HalfTwice(1);
    MulUnrollOne(x);
    MulZero(Double(x), 7);
    XorByteTwice(x, 0);
    OneTimes(x);
  }

  lemma MulUnrollOne(x: Byte)
    ensures Mul(x, 1) == XorByte(x, MulFrom(Double(x), 0, 7))
  {
    hide XorByte, Double;
    MulFirst(x, 1);
  }

  function SumOfEight(p0: Byte, p1: Byte, p2: Byte, p3: Byte, p4: Byte, p5: Byte, p6: Byte, p7: Byte): Byte {
    XorByte(p0, XorByte(p1, XorByte(p2, XorByte(p3, XorByte(p4, XorByte(p5, XorByte(p6, p7)))))))
  }

  /** The product, round by round. */
  lemma MulWrittenOut(a: Byte, b: Byte)
    ensures var a1 := Double(a); var a2 := Double(a1); var a3 := Double(a2); var a4 := Double(a3);
            var a5 := Double(a4); var a6 := Double(a5); var a7 := Double(a6);
            Mul(a, b) == SumOfEight(Pick(b, a), Pick(b >> 1, a1), Pick(b >> 2, a2), Pick(b >> 3, a3),
                                    Pick(b >> 4, a4), Pick(b >> 5, a5), Pick(b >> 6, a6), Pick(b >> 7, a7))
  {
    hide Double, Pick, Half, XorByte, MulFrom;
    HalfTwice(b);
    var a1 := Double(a);
    var a2 := Double(a1);
    var a3 := Double(a2);
    var a4 := Double(a3);
    var a5 := Double(a4);
    var a6 := Double(a5);
    var a7 := Double(a6);
    MulUnroll(a, b, 6);
    MulUnroll(a2, b >> 2, 4);
    MulUnroll(a4, b >> 4, 2);
    MulUnroll(a6, b >> 6, 0);
    MulNone(Double(a7), Half(b >> 7));
    XorByteTwice(Pick(b >> 7, a7), 0);
  }

  lemma MulNone(a: Byte, b: Byte)
    ensures MulFrom(a, b, 0) == 0
  {
  }

  lemma OneTimes(x: Byte)
    ensures Mul(1, x) == x
  {
    hide Mul;
    MulWrittenOut(1, x);
  }

  lemma {:induction false} PowAdd(x: Byte, m: nat, n: nat)
    ensures Pow(x, m + n) == Mul(Pow(x, m), Pow(x, n))
    decreases m
  {
    hide Mul;
    if m == 0 {
      MulOne(Pow(x, n));
    } else {
      PowAdd(x, m - 1, n);
      MulAssociates(x, Pow(x, m - 1), Pow(x, n));
    }
  }

  lemma {:induction false} PowMul(x: Byte, m: nat, n: nat)
    ensures Pow(Pow(x, m), n) == Pow(x, m * n)
    decreases n
  {
    hide Mul;
    if n == 0 {
      assert m * n == 0;
    } else {
      PowMul(x, m, n - 1);
      assert m * n == m + m * (n - 1);
      PowAdd(x, m, m * (n - 1));
    }
  }

  /** Squaring, as the linear map that it is. */
  function Squared(x: Byte): Byte {
    Pick(x, 0x01) ^ Pick(x >> 1, 0x04) ^ Pick(x >> 2, 0x10) ^ Pick(x >> 3, 0x40)
    ^ Pick(x >> 4, 0x1b) ^ Pick(x >> 5, 0x6c) ^ Pick(x >> 6, 0xab) ^ Pick(x >> 7, 0x9a)
  }

  lemma SquareIs(x: Byte)
    ensures Mul(x, x) == Squared(x)
  {
    hide Mul;
    MulWrittenOut(x, x);
  }

  lemma SquareEight(x: Byte)
    ensures Squared(Squared(Squared(Squared(Squared(Squared(Squared(Squared(x)))))))) == x
  {
  }

  /** x^256 = x in this field. */
  lemma Frobenius(x: Byte)
    ensures Pow(x, 256) == x
  {
    hide Mul, Squared, Pow;
    PowOne(x);
    PowDouble(x, 1);
    PowDouble(x, 2);
    PowDouble(x, 4);
    PowDouble(x, 8);
    PowDouble(x, 16);
    PowDouble(x, 32);
    PowDouble(x, 64);
    PowDouble(x, 128);
    SquareEight(x);
  }

  lemma PowOne(x: Byte)
    ensures Pow(x, 1) == x
  {
    hide Mul;
    MulOne(x);
    assert Pow(x, 1) == Mul(x, Pow(x, 0));
  }

  lemma PowDouble(x: Byte, n: nat)
    ensures Pow(x, 2 * n) == Squared(Pow(x, n))
  {
    hide Mul, Squared, Pow;
    PowAdd(x, n, n);
    SquareIs(Pow(x, n));
  }

  /** The inverse, as the 254th power; zero goes to zero. */
  function Inv(x: Byte): Byte {
    Pow(x, 254)
  }

  /** Exponents may be reduced by the 256th power. */
  lemma PowReduce(x: Byte, k: nat, r: nat)
    ensures Pow(x, 256 * k + r) == Pow(x, k + r)
  {
    hide Mul, Pow;
    PowAdd(x, 256 * k, r);
    PowMul(x, 256, k);
    Frobenius(x);
    PowAdd(x, k, r);
  }

  /** Inversion is its own inverse: 254 * 254 = 256 * 252 + 4. */
  lemma InvInvolution(x: Byte)
    ensures Inv(Inv(x)) == x
  {
    hide Mul, Pow;
    PowMul(x, 254, 254);
    PowReduce(x, 252, 4);
    Frobenius(x);
  }

  /** It deserves its name: x times its inverse is one, for x other than zero. */
  lemma InverseProduct(x: Byte)
    requires x != 0
    ensures Mul(x, Inv(x)) == 1
  {
    hide Mul, Pow, Squared;
    var e := Pow(x, 255);
    PowAdd(x, 1, 254);
    PowOne(x);
    PowDouble(x, 255);
    PowReduce(x, 1, 254);
    Idempotent(e);
    PowAdd(x, 1, 255);
    Frobenius(x);
    MulByZero(x);
  }

  lemma Idempotent(e: Byte)
    requires Squared(e) == e
    ensures e == 0 || e == 1
  {
  }

  /** The fixed square-and-multiply of the source. */
  method GfInv(a: Byte) returns (r: Byte)
    ensures r == Inv(a)
  {
    hide Mul, Pow;
    r := 1;
    var x, e := a, 254;
    MulOne(Pow(a, 254));
    while e != 0
      invariant 0 <= e && Mul(r, Pow(x, e)) == Pow(a, 254)
      decreases e
    {
      ghost var h := e / 2;
      if e % 2 == 1 {
        OddStep(r, x, h);
        assert e == 1 + 2 * h;
        r := GfMul(r, x);
      } else {
        PowOfSquare(x, h);
        assert e == 2 * h;
      }
      x := GfMul(x, x);
      e := e / 2;
    }
    PowZero(x);
    MulOne(r);
  }

  lemma PowZero(x: Byte)
    ensures Pow(x, 0) == 1
  {
  }

  lemma PowOfSquare(x: Byte, h: nat)
    ensures Pow(Mul(x, x), h) == Pow(x, 2 * h)
  {
    hide Mul, Pow;
    PowOne(x);
    PowAdd(x, 1, 1);
    PowMul(x, 2, h);
  }

  lemma OddStep(r: Byte, x: Byte, h: nat)
    ensures Mul(Mul(r, x), Pow(Mul(x, x), h)) == Mul(r, Pow(x, 1 + 2 * h))
  {
    hide Mul, Pow;
    PowOfSquare(x, h);
    PowOne(x);
    PowAdd(x, 1, 2 * h);
    MulAssociates(r, x, Pow(x, 2 * h));
  }

  // ----- the S-box -----

  function Rotl(v: Byte, n: nat): Byte
    requires 1 <= n <= 7
  {
    (v << n) | (v >> (8 - n))
  }

  function Affine(v: Byte): Byte {
    v ^ Rotl(v, 1) ^ Rotl(v, 2) ^ Rotl(v, 3) ^ Rotl(v, 4) ^ 0x63
  }

  function Unaffine(s: Byte): Byte {
    Rotl(s, 1) ^ Rotl(s, 3) ^ Rotl(s, 6) ^ 0x05
  }

  lemma UnaffineAffine(v: Byte)
    ensures Unaffine(Affine(v)) == v
  {
  }

  lemma AffineUnaffine(v: Byte)
    ensures Affine(Unaffine(v)) == v
  {
  }

  function Sbox(x: Byte): Byte {
    Affine(Inv(x))
  }

  function InvSbox(s: Byte): Byte {
    Inv(Unaffine(s))
  }

  /** The S-box is a bijection. */
  lemma SboxInverse(x: Byte)
    ensures InvSbox(Sbox(x)) == x && Sbox(InvSbox(x)) == x
  {
    hide Inv, Affine, Unaffine;
    UnaffineAffine(Inv(x));
    InvInvolution(x);
    InvInvolution(Unaffine(x));
    AffineUnaffine(x);
  }
}
