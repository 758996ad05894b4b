/** Modular multiplication and exponentiation on limbs: a 512-bit product is
    reduced one bit at a time with a five-limb remainder. */
module FeldmanModMul {
  import opened ModArith
  import opened PowersOfTwo
  import opened PrimeField
  import opened FeldmanLimbs

  // ----- bits of a number -----

  /** Bit `bit` of a number sits in limb bit / 64. */
  lemma {:induction false} BitOfLimbs(s: seq<Word>, bit: nat)
    requires bit < 64 * |s|
    ensures Val(s) / Pow2(bit) % 2 == s[bit / 64] / Pow2(bit % 64) % 2
    decreases |s|
  {
    hide Pow2;
    var v := Val(s[1..]);
    if bit >= 64 {
      BitOfLimbs(s[1..], bit - 64);
      Pow2Add(64, bit - 64);
      Pow2Of64();
      NestedDivision(Val(s), BASE, Pow2(bit - 64));
      DivModUnique(Val(s), BASE, v, s[0]);
      assert (bit - 64) / 64 == bit / 64 - 1 && (bit - 64) % 64 == bit % 64;
    } else {
      var p, h := Pow2(bit), Pow2(63 - bit);
      Pow2Of64();
      Pow2Add(bit, 64 - bit);
      Pow2Add(1, 63 - bit);
      Pow2One();
      var w: int := s[0];
      assert Val(s) == w + (2 * h * v) * p by {
        Associate(p, 2 * h, v);
        assert (2 * h * v) * p == p * (2 * h * v);
      }
      assert w == p * (w / p) + w % p;
      Distribute(w / p, 2 * h * v, p);
      DivModUnique(Val(s), p, w / p + 2 * h * v, w % p);
      Associate(2, h, v);
      AddMultiple(w / p, h * v, 2);
    }
  }

  // ----- reduction -----

  /** rem = 2 rem + bit, five limbs wide. */
  method ShiftIn(rem: array<Word>, bit: int)
    requires rem.Length == 5 && 0 <= bit <= 1 && 2 * Val(rem[..]) + bit < Place(5)
    modifies rem
    ensures Val(rem[..]) == 2 * old(Val(rem[..])) + bit
  {
    hide Val, Place;
    ghost var x := rem[..];
    var carry: int := bit;
    assert Val(x[..0]) == 0 && Val(rem[..0]) == 0 && Place(0) == 1 by { ValZero([]); PlaceZero(); }
    for k := 0 to 5
      invariant 0 <= carry <= 1
      invariant forall l :: k <= l < 5 ==> rem[l] == x[l]
      invariant Val(rem[..k]) + carry * Place(k) == Val(x[..k]) + Val(x[..k]) + bit
    {
      var limb: int := rem[k];
      var nc: int := limb / 0x8000_0000_0000_0000;
      ghost var was: seq<Word> := rem[..];
      DoubleLimb(limb, carry);
      rem[k] := (2 * limb) % BASE + carry;
      AddStep(was[..k], x, x, bit, k, 2 * limb + carry);
      assert rem[..k + 1] == was[..k] + [(2 * limb + carry) % BASE];
      carry := nc;
    }
    assert x[..5] == x && rem[..5] == rem[..];
    ValNonNegative(rem[..], carry, Place(5), 2 * Val(x) + bit);
  }

  lemma PlaceZero()
    ensures Place(0) == 1
  {
  }

  lemma DoubleLimb(limb: int, carry: int)
    requires 0 <= limb < BASE && 0 <= carry <= 1
    ensures (2 * limb) % BASE + carry == (2 * limb + carry) % BASE
    ensures limb / 0x8000_0000_0000_0000 == (2 * limb + carry) / BASE
    ensures 0 <= (2 * limb) % BASE + carry < BASE
  {
  }

  /** A sum below the capacity leaves no carry. */
  lemma ValNonNegative(s: seq<Word>, carry: int, cap: int, sum: int)
    requires 0 <= carry <= 1 && Val(s) + carry * cap == sum < cap
    ensures carry == 0
  {
  }

  /** rem = rem - m, five limbs minus four. */
  method SubtractOnce(rem: array<Word>, m: array<Word>)
    requires rem.Length == 5 && m.Length == 4 && rem != m && Val(rem[..]) >= Val(m[..])
    modifies rem
    ensures Val(rem[..]) == old(Val(rem[..])) - Val(m[..])
  {
    hide Val, Place;
    ghost var full, y := rem[..], m[..];
    ghost var x := full[..4];
    var br: int := 0;
    assert Val(x[..0]) == 0 && Val(y[..0]) == 0 && Val(rem[..0]) == 0 by { ValZero([]); }
    for i := 0 to 4
      invariant 0 <= br <= 1
      invariant forall k :: i <= k < 5 ==> rem[k] == full[k]
      invariant Val(rem[..i]) - br * Place(i) == Val(x[..i]) - Val(y[..i])
    {
      var d: int := (rem[i] as int) - m[i] - br;
      var t: int := d % WIDE;
      Borrow(d);
      ghost var was: seq<Word> := rem[..];
      rem[i] := t % BASE;
      SubStep(was[..i], x, y, i, d);
      assert rem[..i + 1] == was[..i] + [t % BASE];
      br := (t / BASE) % 2;
    }
    ghost var low := rem[..4];
    assert x[..4] == x && y[..4] == y;
    TopLimb(full, x, y, low, br);
    rem[4] := rem[4] - br;
    assert rem[..] == low + [full[4] - br];
  }

  lemma FiveLimbs(low: seq<Word>, top: Word)
    requires |low| == 4
    ensures Val(low + [top]) == Val(low) + top * Place(4)
  {
    hide Val, Place;
    ValSnoc(low, top);
  }

  lemma TopLimb(full: seq<Word>, x: seq<Word>, y: seq<Word>, low: seq<Word>, br: int)
    requires |full| == 5 && x == full[..4] && |low| == 4 && 0 <= br <= 1
    requires Val(low) - br * Place(4) == Val(x) - Val(y) && Val(full) >= Val(y)
    ensures br <= full[4]
    ensures Val(low + [full[4] - br]) == Val(full) - Val(y)
  {
    hide *;
    ValBelow(low);
    assert full == x + [full[4]];
    FiveLimbs(x, full[4]);
    TopDigit(full[4], br, Place(4), Val(low), Val(x), Val(y));
    FiveLimbs(low, full[4] - br);
  }

  lemma TopDigit(h: int, br: int, p: int, low: int, x: int, y: int)
    requires 0 <= h && 0 <= br <= 1 && low < p
    requires low - br * p == x - y && x + h * p >= y
    ensures br <= h
    ensures low + (h - br) * p == x + h * p - y
  {
    Distribute(h, br, p);
    assert h == 0 ==> h * p == 0;
  }

  /** The exit test of the reduction loop. */
  predicate Exits(rem: seq<Word>, m: seq<Word>) {
    Val(rem) < Val(m)
  }

  /** A zero modulus never ends the loop: the test fails whatever the remainder
      is, and the subtraction leaves it as it is. */
  lemma ZeroModulusNeverExits(rem: seq<Word>, m: seq<Word>)
    requires forall k :: 0 <= k < |m| ==> m[k] == 0
    ensures !Exits(rem, m) && Val(rem) - Val(m) == Val(rem)
  {
    ValZero(m);
  }

  /** The comparison of the reduction loop: the top limb is zero and the other
      four are below m. */
  method Below(rem: array<Word>, m: array<Word>) returns (below: bool)
    requires rem.Length == 5 && m.Length == 4
    ensures below == Exits(rem[..], m[..])
  {
    hide Val, Place;
    var lo := new Word[4];
    lo[0], lo[1], lo[2], lo[3] := rem[0], rem[1], rem[2], rem[3];
    var ge := UGe(lo, m);
    below := rem[4] == 0 && !ge;
    assert lo[..] == rem[..4] && rem[..5] == rem[..];
    TakeSnoc(rem[..], 4);
    assert rem[..][..5] == rem[..] && rem[..][..4] == rem[..4];
    ValBelow(m[..]);
    assert rem[4] >= 1 ==> rem[4] * Place(4) >= Place(4) by {
      if rem[4] >= 1 { MulAtLeast(rem[4], Place(4)); }
    }
  }

  /** The reduction for any modulus but zero.  The remainder is below 2m after
      every shift, so the inner loop ends with it below m. */
  method Reduce512(prod: array<Word>, m: array<Word>, r: array<Word>)
    requires prod.Length == 8 && m.Length == 4 && r.Length == 4 && 0 < Val(m[..])
    modifies r
    ensures Val(r[..]) == old(Val(prod[..])) % old(Val(m[..]))
  {
    hide Val, Place, Pow2;
    ghost var limbs, n, mod := prod[..], Val(prod[..]), Val(m[..]);
    assert mod < Place(4) by { ValBelow(m[..]); }
    var rem: array<Word> := new Word[5](_ => 0);
    ValZero(rem[..]);
    var bit := 512;
    ExhaustedProduct(limbs, mod);
    while bit > 0
      invariant 0 <= bit <= 512
      invariant prod[..] == limbs && Val(m[..]) == mod
      invariant Val(rem[..]) == (n / Pow2(bit)) % mod
    {
      bit := bit - 1;
      var carry: int := (prod[bit / 64] / Pow2(bit % 64)) % 2;
      ghost var high, next := n / Pow2(bit + 1), n / Pow2(bit);
      BitOfLimbs(limbs, bit);
      NextBit(n, bit);
      CongReduce(high, mod);
      DoubleBelow(Val(rem[..]), mod, carry);
      ShiftIn(rem, carry);
      DoubledRemainder(high, mod, carry);
      assert next == 2 * high + carry;
      while true
        invariant Val(m[..]) == mod && prod[..] == limbs
        invariant Val(rem[..]) < 2 * mod && Cong(Val(rem[..]), next, mod)
        decreases Val(rem[..])
      {
        var below := Below(rem, m);
        if below {
          break;
        }
        ghost var before := Val(rem[..]);
        SubtractOnce(rem, m);
        CongFrom(before, Val(rem[..]), 1, mod);
      }
      DivModUnique(Val(rem[..]), mod, 0, Val(rem[..]));
    }
    assert Pow2(0) == 1 by { Pow2Zero(); }
    assert n / 1 == n;
    TopIsZero(rem[..], mod);
    r[0], r[1], r[2], r[3] := rem[0], rem[1], rem[2], rem[3];
    assert r[..] == rem[..][..4];
  }

  lemma {:induction false} PlaceIsPower(n: nat)
    ensures Place(n) == Pow2(64 * n)
  {
    if n != 0 {
      PlaceIsPower(n - 1);
      Pow2Add(64, 64 * (n - 1));
      Pow2Of64();
    }
  }

  lemma ExhaustedProduct(limbs: seq<Word>, mod: int)
    requires |limbs| == 8 && 0 < mod
    ensures (Val(limbs) / Pow2(512)) % mod == 0
  {
    ValBelow(limbs);
    PlaceIsPower(8);
    DivModUnique(Val(limbs), Pow2(512), 0, Val(limbs));
    DivModUnique(0, mod, 0, 0);
  }

  lemma DoubleBelow(rem: nat, mod: int, carry: int)
    requires 0 <= carry <= 1 && rem < mod < Place(4)
    ensures 2 * rem + carry < Place(5) && 2 * rem + carry < 2 * mod
  {
    assert Place(5) == BASE * Place(4);
  }

  lemma DoubledRemainder(high: int, mod: int, carry: int)
    requires 0 < mod
    ensures Cong(2 * (high % mod) + carry, 2 * high + carry, mod)
  {
    CongReduce(high, mod);
    CongMul(2, 2, high % mod, high, mod);
    CongAdd(2 * (high % mod), 2 * high, carry, carry, mod);
  }

  lemma TopIsZero(rem: seq<Word>, mod: int)
    requires |rem| == 5 && Val(rem) < mod < Place(4)
    ensures Val(rem[..4]) == Val(rem)
  {
    TakeSnoc(rem, 4);
    assert rem[..5] == rem;
    if rem[4] >= 1 {
      MulAtLeast(rem[4], Place(4));
    }
  }

  // ----- multiplication -----

  /** Schoolbook multiplication, then reduction; any aliasing is allowed. */
  method MulMod(a: array<Word>, b: array<Word>, m: array<Word>, r: array<Word>)
    requires a.Length == 4 && b.Length == 4 && m.Length == 4 && r.Length == 4 && 0 < Val(m[..])
    modifies r
    ensures Val(r[..]) == (old(Val(a[..])) * old(Val(b[..]))) % old(Val(m[..]))
  {
    hide Val, Place;
    ghost var x, y, mod := a[..], b[..], Val(m[..]);
    var prod: array<Word> := new Word[8](_ => 0);
    ValZero(prod[..]);
    assert Val(x[..0]) == 0 by { ValZero([]); }
    for i := 0 to 4
      invariant a[..] == x && b[..] == y && Val(m[..]) == mod
      invariant Val(prod[..]) == Val(x[..i]) * Val(y)
      invariant forall k :: i + 4 <= k < 8 ==> prod[k] == 0
    {
      var c: int := 0;
      ghost var start := Val(prod[..]);
      assert Val(y[..0]) == 0 by { ValZero([]); }
      for j := 0 to 4
        invariant 0 <= c < BASE
        invariant a[..] == x && b[..] == y && Val(m[..]) == mod
        invariant forall k :: i + 4 <= k < 8 ==> prod[k] == 0
        invariant Val(prod[..]) + c * Place(i + j) == start + (x[i] * Place(i)) * Val(y[..j])
      {
        ghost var was: seq<Word> := prod[..];
        CellFits(a[i], b[j], prod[i + j], c);
        var t: int := (a[i] as int) * (b[j] as int) + prod[i + j] + c;
        MulStep(was, x, y, i, j, c, t, start);
        prod[i + j] := t % BASE;
        assert prod[..] == was[i + j := t % BASE];
        c := t / BASE;
      }
      ghost var was: seq<Word> := prod[..];
      prod[i + 4] := prod[i + 4] + c;
      assert prod[..] == was[i + 4 := c];
      ValUpdate(was, i + 4, c);
      assert y[..4] == y;
      RowDone(x, Val(y), i);
    }
    assert x[..4] == x;
    Reduce512(prod, m, r);
  }

  /** A limb product with two limbs added still fits 128 bits. */
  lemma CellFits(u: Word, v: Word, w: Word, c: int)
    requires 0 <= c < BASE
    ensures 0 <= (u as int) * (v as int) + w + c < WIDE
    ensures 0 <= ((u as int) * (v as int) + w + c) / BASE < BASE
  {
    var a: int, b: int := u, v;
    Monotone(a, b, BASE - 1);
    Monotone(a, 0, b);
    Monotone(BASE - 1, a, BASE - 1);
    DivideBelow(a * b + w + c);
  }

  lemma DivideBelow(t: int)
    requires 0 <= t < WIDE
    ensures 0 <= t / BASE < BASE
  {
  }

  lemma MulStep(was: seq<Word>, x: seq<Word>, y: seq<Word>, i: nat, j: nat, c: int, t: int, start: int)
    requires |was| == 8 && |x| == 4 && |y| == 4 && i < 4 && j < 4
    requires t == (x[i] as int) * (y[j] as int) + was[i + j] + c
    requires Val(was) + c * Place(i + j) == start + (x[i] * Place(i)) * Val(y[..j])
    ensures Val(was[i + j := t % BASE]) + (t / BASE) * Place(i + (j + 1)) == start + (x[i] * Place(i)) * Val(y[..j + 1])
  {
    hide Val, Place;
    var u: int, v: int, w: int, p := x[i], y[j], was[i + j], Place(i + j);
    ValUpdate(was, i + j, t % BASE);
    TakeSnoc(y, j);
    PlaceAdd(i, j);
    PlaceStep(i + j);
    Regroup(t, w, c, p, Place(i + j + 1));
    Distribute(t % BASE, w, p);
    Distribute(t - w, c, p);
    Distribute(Val(y[..j]), v * Place(j), u * Place(i));
    CrossTerm(u, v, Place(i), Place(j));
  }

  lemma CrossTerm(u: int, v: int, p: int, q: int)
    ensures (u * p) * (v * q) == (u * v) * (p * q)
  {
    Associate(u, p, v * q);
    Associate(p, v, q);
    Associate(v, p, q);
    Associate(u, v, p * q);
  }

  lemma {:induction false} PlaceAdd(i: nat, j: nat)
    ensures Place(i + j) == Place(i) * Place(j)
    decreases i
  {
    if i != 0 {
      PlaceAdd(i - 1, j);
      Associate(BASE, Place(i - 1), Place(j));
    }
  }

  lemma RowDone(x: seq<Word>, y: int, i: nat)
    requires i < |x|
    ensures Val(x[..i]) * y + (x[i] * Place(i)) * y == Val(x[..i + 1]) * y
  {
    hide Val, Place;
    TakeSnoc(x, i);
    Distribute(Val(x[..i]), x[i] * Place(i), y);
  }

  // ----- exponentiation -----

  /** One exponent bit: multiply if it is set, then square. */
  method PowRound(res: array<Word>, b: array<Word>, m: array<Word>, bit: int, ghost x: int, ghost low: nat, ghost i: nat)
    requires res.Length == 4 && b.Length == 4 && m.Length == 4 && res != b && m != res && m != b
    requires 0 < Val(m[..]) && 0 <= bit <= 1
    requires Cong(Val(res[..]), Pow(x, low), Val(m[..])) && Cong(Val(b[..]), Pow(x, Pow2(i)), Val(m[..]))
    requires if low == 0 then Val(res[..]) == 1 else Val(res[..]) < Val(m[..])
    modifies res, b
    ensures 0 <= low + Pow2(i) * bit
    ensures Cong(Val(res[..]), Pow(x, low + Pow2(i) * bit), Val(m[..]))
    ensures if low + Pow2(i) * bit == 0 then Val(res[..]) == 1 else Val(res[..]) < Val(m[..])
    ensures Cong(Val(b[..]), Pow(x, Pow2(i + 1)), Val(m[..]))
  {
    hide Val, Place, Pow2, Pow, Cong;
    ghost var mod, was, sq := Val(m[..]), Val(res[..]), Val(b[..]);
    if bit == 1 {
      MulMod(res, b, m, res);
      MultiplyStep(x, low, Pow2(i), was, sq, mod);
      assert Pow2(i) * 1 == Pow2(i);
    } else {
      assert Pow2(i) * 0 == 0;
    }
    MulMod(b, b, m, b);
    SquareStep(x, i, sq, mod);
  }

  /** Square and multiply over all 256 exponent bits.  The result is exact for
      every modulus above one; modulo one an empty product stays 1. */
  method PowMod(base: array<Word>, exp: array<Word>, m: array<Word>, r: array<Word>)
    requires base.Length == 4 && exp.Length == 4 && m.Length == 4 && r.Length == 4 && 0 < Val(m[..])
    modifies r
    ensures 1 < old(Val(m[..])) ==>
      Val(r[..]) == Pow(old(Val(base[..])), old(Val(exp[..]))) % old(Val(m[..]))
    ensures old(Val(m[..])) == 1 ==> Val(r[..]) == if old(Val(exp[..])) == 0 then 1 else 0
  {
    hide Val, Place, Pow2, Pow;
    ghost var x, e, mod, bits := Val(base[..]), Val(exp[..]), Val(m[..]), exp[..];
    var res := Small(1);
    var b := new Word[4];
    CopyLimbs(base, b);
    PowerStart(x, e);
    for i := 0 to 256
      invariant exp[..] == bits && Val(m[..]) == mod
      invariant Cong(Val(res[..]), Pow(x, e % Pow2(i)), mod)
      invariant if e % Pow2(i) == 0 then Val(res[..]) == 1 else Val(res[..]) < mod
      invariant Cong(Val(b[..]), Pow(x, Pow2(i)), mod)
    {
      BitOfLimbs(bits, i);
      LowBits(e, i);
      PowRound(res, b, m, exp[i / 64] / Pow2(i % 64) % 2, x, e % Pow2(i), i);
    }
    assert e % Pow2(256) == e by {
      ValBelow(bits);
      PlaceIsPower(4);
      DivModUnique(e, Pow2(256), 0, e);
    }
    if 1 < mod || e != 0 {
      DivModUnique(Val(res[..]), mod, 0, Val(res[..]));
    }
    CopyLimbs(res, r);
  }

  lemma PowerStart(x: int, e: nat)
    ensures e % Pow2(0) == 0 && Pow(x, 0) == 1 && Pow(x, Pow2(0)) == x
  {
    assert Pow(x, 1) == x * Pow(x, 0);
  }

  lemma MultiplyStep(x: int, low: nat, top: nat, res: int, b: int, mod: int)
    requires 0 < mod && Cong(res, Pow(x, low), mod) && Cong(b, Pow(x, top), mod)
    ensures Cong((res * b) % mod, Pow(x, low + top), mod)
    ensures 0 <= (res * b) % mod < mod
  {
    CongMul(res, Pow(x, low), b, Pow(x, top), mod);
    PowAdd(x, low, top);
    CongReduce(res * b, mod);
  }

  lemma SquareStep(x: int, i: nat, b: int, mod: int)
    requires 0 < mod && Cong(b, Pow(x, Pow2(i)), mod)
    ensures Cong((b * b) % mod, Pow(x, Pow2(i + 1)), mod)
  {
    MultiplyStep(x, Pow2(i), Pow2(i), b, b, mod);
  }

  method Small(x: Word) returns (r: array<Word>)
    ensures fresh(r) && r.Length == 4 && Val(r[..]) == x
  {
    r := new Word[4];
    r[0], r[1], r[2], r[3] := x, 0, 0, 0;
    assert r[..] == [x, 0, 0, 0];
    ValZero([0, 0, 0]);
    assert [x, 0, 0, 0][1..] == [0, 0, 0];
  }

  /** a^(m - 2): the inverse of a modulo a prime m that does not divide it. */
  method InvMod(a: array<Word>, m: array<Word>, r: array<Word>)
    requires a.Length == 4 && m.Length == 4 && r.Length == 4 && 2 <= Val(m[..])
    modifies r
    ensures Val(r[..]) == Pow(old(Val(a[..])), old(Val(m[..])) - 2) % old(Val(m[..]))
    ensures Prime(old(Val(m[..]))) && old(Val(a[..])) % old(Val(m[..])) != 0 ==>
      Cong(old(Val(a[..])) * Val(r[..]), 1, old(Val(m[..])))
  {
    hide Val, Place, Pow, Prime;
    ghost var x, mod := Val(a[..]), Val(m[..]);
    var two := Small(2);
    var e := new Word[4];
    ValBelow(m[..]);
    USub(m, two, e);
    DivModUnique(mod - 2, Place(4), 0, mod - 2);
    PowMod(a, e, m, r);
    if Prime(mod) && x % mod != 0 {
      FermatInverse(mod, x);
      CongReduce(Pow(x, mod - 2), mod);
      CongMul(x, x, Val(r[..]), Pow(x, mod - 2), mod);
    }
  }
}
