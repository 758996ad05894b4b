/** 256-bit arithmetic on four 64-bit limbs, least significant first, as the C
    form does it: results are written through arrays that may be the operands
    themselves. */
module FeldmanLimbs {
  import opened ModArith

  const BASE: int := 0x1_0000_0000_0000_0000
  const WIDE: int := BASE * BASE

  type Word = x: int | 0 <= x < 0x1_0000_0000_0000_0000

  // ----- the number a row of limbs stands for -----

  function Val(s: seq<Word>): (n: nat) {
    if s == [] then 0 else s[0] + BASE * Val(s[1..])
  }

  /** The weight of limb i. */
  function Place(i: nat): (w: nat)
    ensures 1 <= w
  {
    if i == 0 then 1 else BASE * Place(i - 1)
  }

  lemma {:induction false} ValSnoc(s: seq<Word>, x: Word)
    ensures Val(s + [x]) == Val(s) + x * Place(|s|)
  {
    if s == [] {
      assert s + [x] == [x];
      assert [x][1..] == [];
    } else {
      ValSnoc(s[1..], x);
      assert (s + [x])[1..] == s[1..] + [x];
      var p := Place(|s| - 1);
      assert BASE * (Val(s[1..]) + x * p) == BASE * Val(s[1..]) + x * (BASE * p);
    }
  }

  lemma {:induction false} ValUpdate(s: seq<Word>, k: nat, x: Word)
    requires k < |s|
    ensures Val(s[k := x]) == Val(s) + (x - s[k]) * Place(k)
  {
    var t := s[k := x];
    if k == 0 {
      assert t[1..] == s[1..];
    } else {
      ValUpdate(s[1..], k - 1, x);
      assert t[1..] == s[1..][k - 1 := x];
      var d: int, p := x - s[k], Place(k - 1);
      assert BASE * (Val(s[1..]) + d * p) == BASE * Val(s[1..]) + d * (BASE * p);
    }
  }

  lemma {:induction false} ValBelow(s: seq<Word>)
    ensures Val(s) < Place(|s|)
  {
    if s != [] {
      ValBelow(s[1..]);
    }
  }

  lemma {:induction false} ValZero(s: seq<Word>)
    requires forall k :: 0 <= k < |s| ==> s[k] == 0
    ensures Val(s) == 0
  {
    if s != [] {
      ValZero(s[1..]);
    }
  }

  lemma TakeSnoc(s: seq<Word>, i: nat)
    requires i < |s|
    ensures Val(s[..i + 1]) == Val(s[..i]) + s[i] * Place(i)
  {
    assert s[..i + 1] == s[..i] + [s[i]];
    ValSnoc(s[..i], s[i]);
  }

  /** A number is determined by its limbs below the capacity. */
  lemma ModCapacity(n: int, r: int, k: int, cap: int)
    requires 0 <= r < cap && n == r + k * cap
    ensures r == n % cap
  {
    DivModUnique(n, cap, k, r);
  }

  // ----- comparison, addition, subtraction -----

  /** Compares from the most significant limb down. */
  method UCmp(a: array<Word>, b: array<Word>) returns (c: int)
    requires a.Length == 4 && b.Length == 4
    ensures -1 <= c <= 1
    ensures c < 0 <==> Val(a[..]) < Val(b[..])
    ensures c > 0 <==> Val(a[..]) > Val(b[..])
  {
    var i := 4;
    while i > 0
      invariant 0 <= i <= 4
      invariant forall k :: i <= k < 4 ==> a[k] == b[k]
    {
      i := i - 1;
      if a[i] < b[i] {
        LimbDecides(a[..], b[..], i);
        return -1;
      }
      if a[i] > b[i] {
        LimbDecides(b[..], a[..], i);
        return 1;
      }
    }
    assert a[..] == b[..];
    return 0;
  }

  lemma {:induction false} LimbDecides(s: seq<Word>, t: seq<Word>, i: nat)
    requires |s| == |t| && i < |s| && s[i] < t[i]
    requires forall k :: i < k < |s| ==> s[k] == t[k]
    ensures Val(s) < Val(t)
  {
    if i == 0 {
      assert s[1..] == t[1..];
    } else {
      LimbDecides(s[1..], t[1..], i - 1);
    }
  }

  method UGe(a: array<Word>, b: array<Word>) returns (ge: bool)
    requires a.Length == 4 && b.Length == 4
    ensures ge == (Val(a[..]) >= Val(b[..]))
  {
    var c := UCmp(a, b);
    ge := c >= 0;
  }

  method UAdd(a: array<Word>, b: array<Word>, r: array<Word>)
    requires a.Length == 4 && b.Length == 4 && r.Length == 4
    modifies r
    ensures Val(r[..]) == (Val(old(a[..])) + Val(old(b[..]))) % Place(4)
  {
    hide Val, Place;
    ghost var x, y := a[..], b[..];
    var c: int := 0;
    assert Val(x[..0]) == 0 && Val(y[..0]) == 0 && Val(r[..0]) == 0 by { ValZero([]); }
    for i := 0 to 4
      invariant 0 <= c <= 1
      invariant forall k :: i <= k < 4 ==> a[k] == x[k] && b[k] == y[k]
      invariant Val(r[..i]) + c * Place(i) == Val(x[..i]) + Val(y[..i])
    {
      c := c + a[i] + b[i];
      ghost var was: seq<Word> := r[..];
      r[i] := c % BASE;
      AddStep(was[..i], x, y, 0, i, c);
      assert r[..i + 1] == was[..i] + [c % BASE];
      c := c / BASE;
    }
    assert x[..4] == x && y[..4] == y && r[..4] == r[..];
    ValBelow(r[..]);
    ModCapacity(Val(x) + Val(y), Val(r[..]), c, Place(4));
  }

  /** One limb of a carry chain that computes x + y + z. */
  lemma AddStep(done: seq<Word>, x: seq<Word>, y: seq<Word>, z: int, i: nat, c: int)
    requires |x| == |y| && i < |x| && |done| == i
    requires 0 <= c - x[i] - y[i] <= 1
    requires Val(done) + (c - x[i] - y[i]) * Place(i) == Val(x[..i]) + Val(y[..i]) + z
    ensures 0 <= c / BASE <= 1
    ensures Val(done + [c % BASE]) + (c / BASE) * Place(i + 1) == Val(x[..i + 1]) + Val(y[..i + 1]) + z
  {
    hide Val, Place;
    ValSnoc(done, c % BASE);
    TakeSnoc(x, i);
    TakeSnoc(y, i);
    Regroup(c, x[i], y[i], Place(i), Place(i + 1)) by {
      PlaceStep(i);
    }
  }

  lemma PlaceStep(i: nat)
    ensures Place(i + 1) == BASE * Place(i)
  {
  }

  lemma Regroup(c: int, u: int, v: int, p: int, next: int)
    requires next == BASE * p
    ensures (c - u - v) * p == (c % BASE) * p + (c / BASE) * next - u * p - v * p
  {
    var q, r := c / BASE, c % BASE;
    assert c == q * BASE + r;
    Distribute(q * BASE, r, p);
    Associate(q, BASE, p);
    Distribute(c, u, p);
    Distribute(c - u, v, p);
  }

  /** Subtraction with a borrow taken from bit 64 of the wrapped 128-bit
      difference. */
  method USub(a: array<Word>, b: array<Word>, r: array<Word>)
    requires a.Length == 4 && b.Length == 4 && r.Length == 4
    modifies r
    ensures Val(r[..]) == (Val(old(a[..])) - Val(old(b[..]))) % Place(4)
  {
    hide Val, Place;
    ghost var x, y := a[..], b[..];
    var br: int := 0;
    assert Val(x[..0]) == 0 && Val(y[..0]) == 0 && Val(r[..0]) == 0 by { ValZero([]); }
    for i := 0 to 4
      invariant 0 <= br <= 1
      invariant forall k :: i <= k < 4 ==> a[k] == x[k] && b[k] == y[k]
      invariant Val(r[..i]) - br * Place(i) == Val(x[..i]) - Val(y[..i])
    {
      var d: int := (a[i] as int) - b[i] - br;
      var t: int := d % WIDE;
      Borrow(d);
      ghost var was: seq<Word> := r[..];
      r[i] := t % BASE;
      SubStep(was[..i], x, y, i, d);
      assert r[..i + 1] == was[..i] + [t % BASE];
      br := (t / BASE) % 2;
    }
    assert x[..4] == x && y[..4] == y && r[..4] == r[..];
    ValBelow(r[..]);
    ModCapacity(Val(x) - Val(y), Val(r[..]), 0 - br, Place(4));
  }

  lemma Borrow(d: int)
    requires -BASE <= d < BASE
    ensures (d % WIDE) / BASE % 2 == if d < 0 then 1 else 0
    ensures (d % WIDE) % BASE == if d < 0 then d + BASE else d
  {
    if d < 0 {
      DivModUnique(d, WIDE, -1, d + WIDE);
      DivModUnique(d + WIDE, BASE, BASE - 1, d + BASE);
    } else {
      DivModUnique(d, WIDE, 0, d);
      DivModUnique(d, BASE, 0, d);
    }
  }

  lemma SubStep(done: seq<Word>, x: seq<Word>, y: seq<Word>, i: nat, d: int)
    requires |x| == |y| && i < |x| && |done| == i
    requires -1 <= d - (x[i] as int) + y[i] <= 0
    requires Val(done) + (d - (x[i] as int) + y[i]) * Place(i) == Val(x[..i]) - Val(y[..i])
    ensures var digit := if d < 0 then d + BASE else d;
            var br := if d < 0 then 1 else 0;
            Val(done + [digit]) - br * Place(i + 1) == Val(x[..i + 1]) - Val(y[..i + 1])
  {
    hide Val;
    var digit := if d < 0 then d + BASE else d;
    ValSnoc(done, digit);
    TakeSnoc(x, i);
    TakeSnoc(y, i);
    var p: int, u: int, v: int := Place(i), x[i], y[i];
    assert (d - u + v) * p == d * p - u * p + v * p;
    assert (d + BASE) * p == d * p + BASE * p;
  }

  /** A sum of two numbers cut to 256 bits, less n if that is possible. */
  function AddOnce(s: nat, n: nat): (t: nat) {
    var cut := s % Place(4);
    if cut >= n then cut - n else cut
  }

  /** addmod: one conditional subtraction. */
  method AddMod(a: array<Word>, b: array<Word>, m: array<Word>, r: array<Word>)
    requires a.Length == 4 && b.Length == 4 && m.Length == 4 && r.Length == 4
    modifies r
    ensures Val(r[..]) == AddOnce(old(Val(a[..]) + Val(b[..])), old(Val(m[..])))
  {
    hide Val, Place;
    ghost var n := Val(m[..]);
    var t := new Word[4];
    UAdd(a, b, t);
    assert m[..] == old(m[..]);
    var ge := UGe(t, m);
    ghost var cut := Val(t[..]);
    ValBelow(t[..]);
    if ge {
      USub(t, m, t);
      DivModUnique(cut - n, Place(4), 0, cut - n);
    }
    CopyLimbs(t, r);
  }

  /** It reduces exactly when what is left of the sum is below twice the
      modulus and the modulus divides what was cut off. */
  lemma AddOnceReduces(s: nat, n: nat)
    requires 0 < n && s < 2 * Place(4)
    ensures AddOnce(s, n) == s % n <==> s % Place(4) < 2 * n && (s < Place(4) || Place(4) % n == 0)
  {
    hide Place;
    var cap := Place(4);
    var k := if s < cap then 0 else 1;
    var cut := s - k * cap;
    DivModUnique(s, cap, k, cut);
    var q := if cut >= n then 1 else 0;
    var r := cut - q * n;
    CongReduce(s, n);
    if r < n {
      DivModUnique(cut, n, q, r);
      DivModUnique(0, n, 0, 0);
      if k == 1 {
        if s % n == cut % n {
          CongSub(s, cut, cut, cut, n);
        } else if cap % n == 0 {
          CongAdd(cut, cut, cap, 0, n);
        }
      }
    }
  }

  method CopyLimbs(t: array<Word>, r: array<Word>)
    requires t.Length == 4 && r.Length == 4
    modifies r
    ensures r[..] == old(t[..])
  {
    r[0], r[1], r[2], r[3] := t[0], t[1], t[2], t[3];
  }
}
