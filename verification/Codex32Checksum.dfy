/** The error-detecting checksum of codex32 (BIP-93): a shift register over
    5-bit symbols with 65 bits of state, or 75 for long strings. */
module Codex32Checksum {

  type Symbol = bv5
  type Residue = bv75

  datatype Code = Regular | Long

  const GEN: seq<Residue> :=
    [0x19DC500CE73FDE210, 0x1BFAE00DEF77FE529, 0x1FBD920FFFE7BEE52, 0x1739640BDEEE3FDAD, 0x07729A039CFC75F5A]

  const LONG_GEN: seq<Residue> :=
    [0x3D59D273535EA62D897, 0x7A9BECB6361C6C51507, 0x543F9B7E6C38D8A2A0E, 0x0C577EAECCF1990D13C, 0x1887F74F8DC71B10651]

  const INITIAL: Residue := 0x23181B3
  const MS32_CONST: Residue := 0x10CE0795C2FD1E62A
  const MS32_LONG_CONST: Residue := 0x43381E570BF4798AB26

  function Generator(c: Code, i: nat): Residue
    requires i < 5
  {
    if c.Regular? then GEN[i] else LONG_GEN[i]
  }

  function Target(c: Code): Residue {
    if c.Regular? then MS32_CONST else MS32_LONG_CONST
  }

  /** The number of checksum symbols. */
  function Width(c: Code): (w: nat)
    ensures w == 13 || w == 15
  {
    if c.Regular? then 13 else 15
  }

  // ----- one step -----

  /** Exclusive or, the addition of residues. */
  function Add(x: Residue, y: Residue): Residue {
    x ^ y
  }

  function Wide(v: Symbol): Residue {
    v as Residue
  }

  function SymbolAdd(v: Symbol, w: Symbol): Symbol {
    v ^ w
  }

  /** The residue without its last symbol, and that symbol. */
  function Shr(r: Residue): Residue {
    r >> 5
  }

  function Last(r: Residue): Symbol {
    (r & 31) as Symbol
  }

  function TopRegular(r: Residue): Residue {
    r >> 60
  }

  function TopLong(r: Residue): Residue {
    r >> 70
  }

  function ShiftedRegular(r: Residue): Residue {
    (r & 0x0FFFFFFFFFFFFFFF) << 5
  }

  function ShiftedLong(r: Residue): Residue {
    (r & 0x3FFFFFFFFFFFFFFFFF) << 5
  }

  /** The five bits shifted out. */
  function Top(c: Code, r: Residue): Residue {
    if c.Regular? then TopRegular(r) else TopLong(r)
  }

  function Shifted(c: Code, r: Residue): Residue {
    if c.Regular? then ShiftedRegular(r) else ShiftedLong(r)
  }

  function Half(b: Residue): Residue {
    b >> 1
  }

  predicate Odd(b: Residue) {
    b & 1 != 0
  }

  /** Bit i of b, (b >> i) & 1. */
  predicate BitSet(b: Residue, i: nat) {
    if i == 0 then Odd(b) else BitSet(Half(b), i - 1)
  }

  function Tap(c: Code, b: Residue, i: nat): Residue
    requires i < 5
  {
    if BitSet(b, i) then Generator(c, i) else 0
  }

  function Taps(c: Code, b: Residue, n: nat): Residue
    requires n <= 5
  {
    if n == 0 then 0 else Add(Taps(c, b, n - 1), Tap(c, b, n - 1))
  }

  function Step(c: Code, r: Residue, v: Symbol): Residue {
    Add(Add(Shifted(c, r), Wide(v)), Taps(c, Top(c, r), 5))
  }

  /** The register after feeding it `s`. */
  function Run(c: Code, r: Residue, s: seq<Symbol>): Residue {
    if s == [] then r else Step(c, Run(c, r, s[..|s| - 1]), s[|s| - 1])
  }

  /** ms32_polymod and ms32_long_polymod. */
  method Polymod(c: Code, values: seq<Symbol>) returns (residue: Residue)
    ensures residue == Run(c, INITIAL, values)
  {
    hide Step, Taps, Tap, BitSet, Shifted, Top, Add, Wide, Generator;
    residue := INITIAL;
    for i := 0 to |values|
      invariant residue == Run(c, INITIAL, values[..i])
    {
      ghost var before := residue;
      var b := Top(c, residue);
      residue := Add(Shifted(c, residue), Wide(values[i]));
      ghost var base := residue;
      NoTaps(c, b, base);
      for j := 0 to 5
        invariant residue == Add(base, Taps(c, b, j))
      {
        NextTap(c, b, j, base);
        residue := Add(residue, if BitSet(b, j) then Generator(c, j) else 0);
      }
      StepIs(c, before, values[i]);
      assert values[..i + 1][..i] == values[..i];
    }
    assert values[..|values|] == values;
  }

  lemma NoTaps(c: Code, b: Residue, base: Residue)
    ensures base == Add(base, Taps(c, b, 0))
  {
    hide Add;
    Cancels(base);
  }

  lemma NextTap(c: Code, b: Residue, j: nat, base: Residue)
    requires j < 5
    ensures Add(base, Taps(c, b, j + 1)) == Add(Add(base, Taps(c, b, j)), if BitSet(b, j) then Generator(c, j) else 0)
  {
    hide Add, BitSet, Generator;
    Associates(base, Taps(c, b, j), Tap(c, b, j));
  }

  lemma StepIs(c: Code, r: Residue, v: Symbol)
    ensures Step(c, r, v) == Add(Add(Shifted(c, r), Wide(v)), Taps(c, Top(c, r), 5))
  {
    hide Add, Shifted, Wide, Taps, Top;
  }

  // ----- linearity -----

  lemma Commutes(x: Residue, y: Residue)
    ensures Add(x, y) == Add(y, x)
  {
  }

  lemma AssociatesOnce(x: Residue, y: Residue, z: Residue)
    ensures Add(x ^ y, z) == Add(x, y ^ z)
  {
  }

  lemma Associates(x: Residue, y: Residue, z: Residue)
    ensures Add(Add(x, y), z) == Add(x, Add(y, z))
  {
    hide Add;
    AddIs(x, y);
    AddIs(y, z);
    AssociatesOnce(x, y, z);
  }

  lemma Cancels(x: Residue)
    ensures Add(x, x) == 0 && Add(x, 0) == x && Add(0, x) == x
  {
  }

  lemma Interchange(a: Residue, b: Residue, c: Residue, d: Residue)
    ensures Add(Add(a, b), Add(c, d)) == Add(Add(a, c), Add(b, d))
  {
    hide Add;
    Associates(a, b, Add(c, d));
    Associates(b, c, d);
    Commutes(b, c);
    Associates(c, b, d);
    Associates(a, c, Add(b, d));
  }

  lemma HalfOfXor(a: Residue, b: Residue)
    ensures Half(a ^ b) == Half(a) ^ Half(b)
    ensures Odd(a ^ b) <==> Odd(a) != Odd(b)
  {
  }

  lemma HalfLinear(a: Residue, b: Residue)
    ensures Half(Add(a, b)) == Add(Half(a), Half(b))
    ensures Odd(Add(a, b)) <==> Odd(a) != Odd(b)
  {
    hide Half, Odd;
    HalfOfXor(a, b);
  }

  lemma {:induction false} BitLinear(a: Residue, b: Residue, i: nat)
    ensures BitSet(Add(a, b), i) <==> BitSet(a, i) != BitSet(b, i)
    decreases i
  {
    hide Half, Odd, Add;
    HalfLinear(a, b);
    if i != 0 {
      BitLinear(Half(a), Half(b), i - 1);
    }
  }

  lemma TapLinear(c: Code, a: Residue, b: Residue, i: nat)
    requires i < 5
    ensures Tap(c, Add(a, b), i) == Add(Tap(c, a, i), Tap(c, b, i))
  {
    hide Add, BitSet, Generator;
    BitLinear(a, b, i);
    Cancels(Generator(c, i));
    Cancels(0);
  }

  lemma AddIs(a: Residue, b: Residue)
    ensures Add(a, b) == a ^ b
  {
  }

  lemma {:induction false} TapsLinear(c: Code, a: Residue, b: Residue, n: nat)
    requires n <= 5
    ensures Taps(c, Add(a, b), n) == Add(Taps(c, a, n), Taps(c, b, n))
  {
    hide Add, Tap;
    if n == 0 {
      Cancels(0);
    } else {
      TapsLinear(c, a, b, n - 1);
      TapLinear(c, a, b, n - 1);
      Interchange(Taps(c, a, n - 1), Taps(c, b, n - 1), Tap(c, a, n - 1), Tap(c, b, n - 1));
    }
  }

  lemma RegularOfXor(a: Residue, b: Residue)
    ensures ShiftedRegular(a ^ b) == ShiftedRegular(a) ^ ShiftedRegular(b)
    ensures TopRegular(a ^ b) == TopRegular(a) ^ TopRegular(b)
  {
  }

  lemma LongOfXor(a: Residue, b: Residue)
    ensures ShiftedLong(a ^ b) == ShiftedLong(a) ^ ShiftedLong(b)
    ensures TopLong(a ^ b) == TopLong(a) ^ TopLong(b)
  {
  }

  lemma WideOfXor(v: Symbol, w: Symbol)
    ensures Wide(v ^ w) == Wide(v) ^ Wide(w)
  {
  }

  lemma RegularLinear(a: Residue, b: Residue)
    ensures ShiftedRegular(Add(a, b)) == Add(ShiftedRegular(a), ShiftedRegular(b))
    ensures TopRegular(Add(a, b)) == Add(TopRegular(a), TopRegular(b))
  {
    hide ShiftedRegular, TopRegular;
    RegularOfXor(a, b);
  }

  lemma LongLinear(a: Residue, b: Residue)
    ensures ShiftedLong(Add(a, b)) == Add(ShiftedLong(a), ShiftedLong(b))
    ensures TopLong(Add(a, b)) == Add(TopLong(a), TopLong(b))
  {
    hide ShiftedLong, TopLong;
    LongOfXor(a, b);
  }

  lemma PartsLinear(c: Code, a: Residue, b: Residue)
    ensures Shifted(c, Add(a, b)) == Add(Shifted(c, a), Shifted(c, b))
    ensures Top(c, Add(a, b)) == Add(Top(c, a), Top(c, b))
  {
    hide ShiftedRegular, ShiftedLong, TopRegular, TopLong, Add;
    if c.Regular? { RegularLinear(a, b); } else { LongLinear(a, b); }
  }

  lemma WideLinear(v: Symbol, w: Symbol)
    ensures Wide(SymbolAdd(v, w)) == Add(Wide(v), Wide(w))
  {
    hide Wide;
    WideOfXor(v, w);
  }

  /** One step is linear over exclusive or. */
  lemma StepLinear(c: Code, r: Residue, s: Residue, v: Symbol, w: Symbol)
    ensures Step(c, Add(r, s), SymbolAdd(v, w)) == Add(Step(c, r, v), Step(c, s, w))
  {
    hide Shifted, Top, Taps, Add, Wide, SymbolAdd;
    PartsLinear(c, r, s);
    WideLinear(v, w);
    TapsLinear(c, Top(c, r), Top(c, s), 5);
    Interchange(Shifted(c, r), Shifted(c, s), Wide(v), Wide(w));
    Interchange(Add(Shifted(c, r), Wide(v)), Add(Shifted(c, s), Wide(w)),
                Taps(c, Top(c, r), 5), Taps(c, Top(c, s), 5));
  }

  function Xor(a: seq<Symbol>, b: seq<Symbol>): (d: seq<Symbol>)
    requires |a| == |b|
    ensures |d| == |a|
    ensures forall i :: 0 <= i < |d| ==> d[i] == SymbolAdd(a[i], b[i])
  {
    seq(|a|, i requires 0 <= i < |a| => SymbolAdd(a[i], b[i]))
  }

  /** So is a whole run: differences evolve on their own. */
  lemma {:induction false} RunLinear(c: Code, r: Residue, s: Residue, a: seq<Symbol>, b: seq<Symbol>)
    requires |a| == |b|
    ensures Run(c, Add(r, s), Xor(a, b)) == Add(Run(c, r, a), Run(c, s, b))
    decreases |a|
  {
    hide Step, Add, SymbolAdd;
    if a != [] {
      var n := |a| - 1;
      RunLinear(c, r, s, a[..n], b[..n]);
      assert Xor(a, b)[..n] == Xor(a[..n], b[..n]);
      StepLinear(c, Run(c, r, a[..n]), Run(c, s, b[..n]), a[n], b[n]);
    }
  }

  lemma {:induction false} RunAppend(c: Code, r: Residue, s: seq<Symbol>, t: seq<Symbol>)
    ensures Run(c, r, s + t) == Run(c, Run(c, r, s), t)
    decreases |t|
  {
    hide Step;
    if t == [] {
      assert s + t == s;
    } else {
      var n := |t| - 1;
      RunAppend(c, r, s, t[..n]);
      assert (s + t)[..|s + t| - 1] == s + t[..n];
    }
  }

  // ----- the register does not forget -----

  predicate Fits(c: Code, r: Residue) {
    if c.Regular? then r < 0x2_0000_0000_0000_0000 else true
  }

  /** The step of the regular code, written out. */
  function RegularStep(r: Residue, v: Symbol): Residue {
    Add(Add(ShiftedRegular(r), Wide(v)),
        Add(Add(Add(Add((if BitSet(TopRegular(r), 0) then 0x19DC500CE73FDE210 else 0),
                        (if BitSet(TopRegular(r), 1) then 0x1BFAE00DEF77FE529 else 0)),
                    (if BitSet(TopRegular(r), 2) then 0x1FBD920FFFE7BEE52 else 0)),
                (if BitSet(TopRegular(r), 3) then 0x1739640BDEEE3FDAD else 0)),
            (if BitSet(TopRegular(r), 4) then 0x07729A039CFC75F5A else 0)))
  }

  /** The step of the long code, written out. */
  function LongStep(r: Residue, v: Symbol): Residue {
    Add(Add(ShiftedLong(r), Wide(v)),
        Add(Add(Add(Add((if BitSet(TopLong(r), 0) then 0x3D59D273535EA62D897 else 0),
                        (if BitSet(TopLong(r), 1) then 0x7A9BECB6361C6C51507 else 0)),
                    (if BitSet(TopLong(r), 2) then 0x543F9B7E6C38D8A2A0E else 0)),
                (if BitSet(TopLong(r), 3) then 0x0C577EAECCF1990D13C else 0)),
            (if BitSet(TopLong(r), 4) then 0x1887F74F8DC71B10651 else 0)))
  }

  lemma UnrollTaps(c: Code, b: Residue)
    ensures Taps(c, b, 5) == Add(Add(Add(Add(Tap(c, b, 0), Tap(c, b, 1)), Tap(c, b, 2)), Tap(c, b, 3)), Tap(c, b, 4))
  {
    hide Add, Tap;
    Cancels(Tap(c, b, 0));
    assert Taps(c, b, 1) == Tap(c, b, 0);
    assert Taps(c, b, 3) == Add(Add(Taps(c, b, 1), Tap(c, b, 1)), Tap(c, b, 2));
  }

  lemma StepWrittenOut(c: Code, r: Residue, v: Symbol)
    ensures Step(c, r, v) == if c.Regular? then RegularStep(r, v) else LongStep(r, v)
  {
    hide Taps, Add, BitSet, TopRegular, TopLong, ShiftedRegular, ShiftedLong, Wide;
    UnrollTaps(c, Top(c, r));
  }

  lemma BitsWrittenOut(b: Residue)
    ensures BitSet(b, 0) <==> b & 1 != 0
    ensures BitSet(b, 1) <==> (b >> 1) & 1 != 0
    ensures BitSet(b, 2) <==> (b >> 2) & 1 != 0
    ensures BitSet(b, 3) <==> (b >> 3) & 1 != 0
    ensures BitSet(b, 4) <==> (b >> 4) & 1 != 0
  {
    hide Odd, Half;
    HalfTwice(b);
    assert BitSet(b, 2) == BitSet(Half(Half(b)), 0);
    assert BitSet(b, 3) == BitSet(Half(b), 2);
    assert BitSet(Half(b), 2) == BitSet(Half(Half(Half(b))), 0);
    assert BitSet(b, 4) == BitSet(Half(Half(b)), 2);
    assert BitSet(Half(Half(b)), 2) == BitSet(Half(Half(Half(Half(b)))), 0);
  }

  lemma HalfTwice(b: Residue)
    ensures Odd(b) <==> b & 1 != 0
    ensures Odd(Half(b)) <==> (b >> 1) & 1 != 0
    ensures Odd(Half(Half(b))) <==> (b >> 2) & 1 != 0
    ensures Odd(Half(Half(Half(b)))) <==> (b >> 3) & 1 != 0
    ensures Odd(Half(Half(Half(Half(b))))) <==> (b >> 4) & 1 != 0
  {
  }

  lemma RegularInjective(r: Residue)
    requires r < 0x2_0000_0000_0000_0000
    ensures RegularStep(r, 0) == 0 ==> r == 0
  {
    hide BitSet;
    BitsWrittenOut(TopRegular(r));
  }

  lemma RegularFits(r: Residue, v: Symbol)
    requires r < 0x2_0000_0000_0000_0000
    ensures RegularStep(r, v) < 0x2_0000_0000_0000_0000
  {
    hide BitSet;
  }

  lemma RegularAppends(q: Residue)
    requires q < 0x2_0000_0000_0000_0000
    ensures RegularStep(q >> 5, (q & 31) as Symbol) == q
  {
    hide Add;
    RegularRejoin(q);
    Cancels(0);
    Cancels(q);
  }

  lemma RegularRejoin(q: Residue)
    requires q < 0x2_0000_0000_0000_0000
    ensures (q >> 5) >> 60 == 0
    ensures Add(((q >> 5) & 0x0FFFFFFFFFFFFFFF) << 5, ((q & 31) as Symbol) as Residue) == q
  {
  }

  lemma LongInjective(r: Residue)
    ensures LongStep(r, 0) == 0 ==> r == 0
  {
    hide BitSet;
    BitsWrittenOut(TopLong(r));
  }

  lemma LongAppends(q: Residue)
    ensures LongStep(q >> 5, (q & 31) as Symbol) == q
  {
  }

  /** With a zero symbol the step is injective: only zero goes to zero. */
  lemma StepInjective(c: Code, r: Residue)
    requires Fits(c, r) && Step(c, r, 0) == 0
    ensures r == 0
  {
    hide Step, RegularStep, LongStep;
    StepWrittenOut(c, r, 0);
    if c.Regular? { RegularInjective(r); } else { LongInjective(r); }
  }

  lemma StepFits(c: Code, r: Residue, v: Symbol)
    requires Fits(c, r)
    ensures Fits(c, Step(c, r, v))
  {
    hide Step, RegularStep, LongStep;
    StepWrittenOut(c, r, v);
    if c.Regular? { RegularFits(r, v); }
  }

  /** While the top five bits are zero, a step only appends the symbol. */
  lemma StepAppends(c: Code, q: Residue)
    requires Fits(c, q)
    ensures Step(c, Shr(q), Last(q)) == q
  {
    hide Step, RegularStep, LongStep;
    StepWrittenOut(c, Shr(q), Last(q));
    if c.Regular? { RegularAppends(q); } else { LongAppends(q); }
  }

  lemma {:induction false} RunFits(c: Code, r: Residue, s: seq<Symbol>)
    requires Fits(c, r)
    ensures Fits(c, Run(c, r, s))
    decreases |s|
  {
    hide Step, Fits;
    if s != [] {
      RunFits(c, r, s[..|s| - 1]);
      StepFits(c, Run(c, r, s[..|s| - 1]), s[|s| - 1]);
    }
  }

  function Zeros(n: nat): (s: seq<Symbol>)
    ensures |s| == n
    ensures forall i :: 0 <= i < n ==> s[i] == 0
  {
    seq(n, _ => 0)
  }

  /** A difference that has once entered the register never leaves it. */
  lemma {:induction false} Persists(c: Code, r: Residue, n: nat)
    requires Fits(c, r) && r != 0
    ensures Run(c, r, Zeros(n)) != 0
    decreases n
  {
    hide Step, Fits;
    if n != 0 {
      Persists(c, r, n - 1);
      assert Zeros(n)[..n - 1] == Zeros(n - 1);
      RunFits(c, r, Zeros(n - 1));
      if Step(c, Run(c, r, Zeros(n - 1)), 0) == 0 {
        StepInjective(c, Run(c, r, Zeros(n - 1)));
      }
    }
  }

  lemma {:induction false} ZeroStays(c: Code, n: nat)
    ensures Run(c, 0, Zeros(n)) == 0
    decreases n
  {
    hide Step;
    if n != 0 {
      ZeroStays(c, n - 1);
      assert Zeros(n)[..n - 1] == Zeros(n - 1);
      ZeroStep(c);
    }
  }

  lemma ZeroStep(c: Code)
    ensures Step(c, 0, 0) == 0
  {
    hide Step;
    StepWrittenOut(c, 0, 0);
  }

  // ----- strings no longer than the register -----

  /** The residue without its last k symbols, pm >> 5k. */
  function Drop(r: Residue, k: nat): Residue {
    if k == 0 then r else Shr(Drop(r, k - 1))
  }

  lemma {:induction false} DropNext(r: Residue, k: nat)
    ensures Drop(r, k + 1) == Drop(Shr(r), k) == Shr(Drop(r, k))
  {
    hide Shr;
    if k != 0 {
      DropNext(r, k - 1);
    }
  }

  lemma ShrTwice(r: Residue)
    ensures Shr(r) == r >> 5
    ensures Shr(r >> 5) == r >> 10
    ensures Shr(r >> 10) == r >> 15
    ensures Shr(r >> 15) == r >> 20
    ensures Shr(r >> 20) == r >> 25
    ensures Shr(r >> 25) == r >> 30
    ensures Shr(r >> 30) == r >> 35
    ensures Shr(r >> 35) == r >> 40
    ensures Shr(r >> 40) == r >> 45
    ensures Shr(r >> 45) == r >> 50
    ensures Shr(r >> 50) == r >> 55
    ensures Shr(r >> 55) == r >> 60
    ensures Shr(r >> 60) == r >> 65
    ensures Shr(r >> 65) == r >> 70
  {
  }

  lemma DropIsShift(r: Residue)
    ensures Drop(r, 12) == r >> 60
    ensures Drop(r, 14) == r >> 70
  {
    hide Shr;
    ShrTwice(r);
    assert Drop(r, 1) == Shr(Drop(r, 0));
    assert Drop(r, 2) == r >> 10;
    assert Drop(r, 4) == r >> 20;
    assert Drop(r, 6) == r >> 30;
    assert Drop(r, 8) == r >> 40;
    assert Drop(r, 10) == r >> 50;
    assert Drop(r, 12) == r >> 60;
  }

  lemma TopIsDrop(c: Code, r: Residue)
    ensures Top(c, r) == Drop(r, Width(c) - 1)
  {
    hide Drop;
    DropIsShift(r);
  }

  lemma {:induction false} DropMore(r: Residue, k: nat, n: nat)
    requires Drop(r, k) == 0 && k <= n
    ensures Drop(r, n) == 0
    decreases n
  {
    hide Shr;
    if k < n {
      DropMore(r, k, n - 1);
      ShrZero();
    }
  }

  lemma ShrZero()
    ensures Shr(0) == 0 && Last(0) == 0
  {
  }

  lemma NoTapsAtZero(c: Code)
    ensures Taps(c, 0, 5) == 0
  {
    hide Add, Generator;
    UnrollTaps(c, 0);
    Cancels(0);
  }

  lemma RejoinRegular(r: Residue, v: Symbol)
    requires Top(Regular, r) == 0
    ensures Shr(Add(Shifted(Regular, r), Wide(v))) == r
    ensures Last(Add(Shifted(Regular, r), Wide(v))) == v
  {
  }

  lemma RejoinLong(r: Residue, v: Symbol)
    requires Top(Long, r) == 0
    ensures Shr(Add(Shifted(Long, r), Wide(v))) == r
    ensures Last(Add(Shifted(Long, r), Wide(v))) == v
  {
  }

  /** With the top bits zero, a step shifts and appends. */
  lemma StepLow(c: Code, r: Residue, v: Symbol)
    requires Top(c, r) == 0
    ensures Shr(Step(c, r, v)) == r && Last(Step(c, r, v)) == v
  {
    hide Taps, Step, Add, Top, Shifted, Wide, Shr, Last;
    NoTapsAtZero(c);
    StepIs(c, r, v);
    Cancels(Add(Shifted(c, r), Wide(v)));
    if c.Regular? { RejoinRegular(r, v); } else { RejoinLong(r, v); }
  }

  lemma {:induction false} RunLow(c: Code, s: seq<Symbol>)
    requires |s| < Width(c)
    ensures Drop(Run(c, 0, s), |s|) == 0
    ensures Top(c, Run(c, 0, s)) == 0
    decreases |s|
  {
    hide Step, Top, Shr, Last;
    if s != [] {
      var n := |s| - 1;
      RunLow(c, s[..n]);
      StepLow(c, Run(c, 0, s[..n]), s[n]);
      DropNext(Run(c, 0, s), n);
    }
    DropMore(Run(c, 0, s), |s|, Width(c) - 1);
    TopIsDrop(c, Run(c, 0, s));
  }

  lemma ZerosByElements(s: seq<Symbol>)
    ensures (forall i :: 0 <= i < |s| ==> s[i] == 0) ==> s == Zeros(|s|)
  {
  }

  /** So a nonzero string that short leaves a nonzero register. */
  lemma {:induction false} ShortIsSeen(c: Code, s: seq<Symbol>)
    requires |s| <= Width(c) && s != Zeros(|s|)
    ensures Run(c, 0, s) != 0
    decreases |s|
  {
    hide Step, Top, Shr, Last;
    var n := |s| - 1;
    RunLow(c, s[..n]);
    StepLow(c, Run(c, 0, s[..n]), s[n]);
    ShrZero();
    if s[n] == 0 {
      ZerosByElements(s);
      ShortIsSeen(c, s[..n]);
    }
  }

  // ----- creating and verifying -----

  /** The symbols of a residue, most significant first. */
  function Digits(c: Code, pm: Residue): (s: seq<Symbol>)
    ensures |s| == Width(c)
  {
    seq(Width(c), i requires 0 <= i < Width(c) => Last(Drop(pm, Width(c) - 1 - i)))
  }

  lemma {:induction false} DigitsPrefix(c: Code, pm: Residue, k: nat)
    requires Fits(c, pm) && k <= Width(c)
    ensures Run(c, 0, Digits(c, pm)[..k]) == Drop(pm, Width(c) - k)
  {
    hide Step, Fits, Shr, Last, Drop, Width;
    var s := Digits(c, pm);
    if k == 0 {
      FitsDrop(c, pm);
    } else {
      var m := Width(c) - k;
      DigitsPrefix(c, pm, k - 1);
      DropNext(pm, m);
      FitsAfterDrop(c, pm, m);
      StepAppends(c, Drop(pm, m));
      assert s[..k][..k - 1] == s[..k - 1];
    }
  }

  /** Feeding the symbols of a residue to a zero register rebuilds it. */
  lemma DigitsRun(c: Code, pm: Residue)
    requires Fits(c, pm)
    ensures Run(c, 0, Digits(c, pm)) == pm
  {
    hide Run, Digits, Fits;
    DigitsPrefix(c, pm, Width(c));
    assert Digits(c, pm)[..Width(c)] == Digits(c, pm);
  }

  lemma FitsDrop(c: Code, pm: Residue)
    requires Fits(c, pm)
    ensures Drop(pm, Width(c)) == 0
  {
    hide Drop;
    DropIsShift(pm);
    DropNext(pm, Width(c) - 1);
  }

  lemma {:induction false} FitsAfterDrop(c: Code, q: Residue, k: nat)
    requires Fits(c, q)
    ensures Fits(c, Drop(q, k))
  {
    hide Shr, Fits;
    if k != 0 {
      FitsAfterDrop(c, q, k - 1);
      FitsShr(c, Drop(q, k - 1));
    }
  }

  lemma FitsShr(c: Code, q: Residue)
    requires Fits(c, q)
    ensures Fits(c, Shr(q))
  {
  }

  /** The code that `create_checksum` picks for so many data symbols. */
  function CodeFor(n: nat): Code {
    if n > 80 then Long else Regular
  }

  function CreateChecksum(data: seq<Symbol>): (s: seq<Symbol>)
    ensures |s| == Width(CodeFor(|data|))
  {
    var c := CodeFor(|data|);
    Digits(c, Add(Run(c, INITIAL, data + Zeros(Width(c))), Target(c)))
  }

  predicate VerifyChecksum(data: seq<Symbol>) {
    if |data| >= 96 then Run(Long, INITIAL, data) == MS32_LONG_CONST
    else if |data| <= 93 then Run(Regular, INITIAL, data) == MS32_CONST
    else false
  }

  lemma ConstantsFit(c: Code, a: Residue)
    requires Fits(c, a)
    ensures Fits(c, INITIAL) && Fits(c, Add(a, Target(c)))
  {
  }

  /** Whatever the data, the checksum created for it verifies, under the same
      one of the two codes. */
  lemma CreatedVerifies(data: seq<Symbol>)
    ensures VerifyChecksum(data + CreateChecksum(data))
  {
    hide Step, Run, Fits, Target, Add, Digits, SymbolAdd;
    var c := CodeFor(|data|);
    var w := Width(c);
    var z := Run(c, INITIAL, data + Zeros(w));
    var pm := Add(z, Target(c));
    ConstantsFit(c, 0) by { ZeroFits(c); }
    RunFits(c, INITIAL, data + Zeros(w));
    ConstantsFit(c, z);
    DigitsRun(c, pm);
    var r := Run(c, INITIAL, data);
    RunAppend(c, INITIAL, data, Zeros(w));
    RunAppend(c, INITIAL, data, Digits(c, pm));
    RunLinear(c, r, 0, Zeros(w), Digits(c, pm));
    Cancels(r);
    assert Xor(Zeros(w), Digits(c, pm)) == Digits(c, pm) by { ZeroXor(Digits(c, pm)); }
    Associates(z, z, Target(c));
    Cancels(z);
    Cancels(Target(c));
    TargetIs(c);
  }

  lemma TargetIs(c: Code)
    ensures Target(c) == if c.Regular? then MS32_CONST else MS32_LONG_CONST
  {
  }

  lemma ZeroFits(c: Code)
    ensures Fits(c, 0)
  {
  }

  lemma ZeroXor(d: seq<Symbol>)
    ensures Xor(Zeros(|d|), d) == d
  {
    forall i | 0 <= i < |d| ensures SymbolAdd(0, d[i]) == d[i] {
      SymbolZero(d[i]);
    }
  }

  lemma SymbolZero(v: Symbol)
    ensures SymbolAdd(0, v) == v && SymbolAdd(v, v) == 0
  {
  }

  // ----- error detection -----

  /** `a` and `b` agree outside the window of `w` positions from `start`. */
  predicate AgreeOutside(a: seq<Symbol>, b: seq<Symbol>, start: nat, w: nat) {
    |a| == |b| && forall i :: 0 <= i < |a| && !(start <= i < start + w) ==> a[i] == b[i]
  }

  /** The code under which a string of so many symbols is checked. */
  function CodeOf(n: nat): Code {
    if n >= 96 then Long else Regular
  }

  /** The difference of the two registers is the run of the difference. */
  lemma DifferenceRun(c: Code, a: seq<Symbol>, b: seq<Symbol>)
    requires |a| == |b|
    ensures Run(c, INITIAL, a) == Run(c, INITIAL, b) <==> Run(c, 0, Xor(a, b)) == 0
  {
    hide Step, Run, Add, SymbolAdd;
    var x, y := Run(c, INITIAL, a), Run(c, INITIAL, b);
    Cancels(INITIAL);
    RunLinear(c, INITIAL, INITIAL, a, b);
    if Add(x, y) == 0 {
      Associates(x, y, y);
      Cancels(y);
    }
    Cancels(x);
  }

  /** A nonzero difference confined to one register width is never lost. */
  lemma BurstIsSeen(c: Code, d: seq<Symbol>, start: nat, w: nat)
    requires w <= Width(c) && start + w <= |d| && d != Zeros(|d|)
    requires forall i :: 0 <= i < |d| && !(start <= i < start + w) ==> d[i] == 0
    ensures Run(c, 0, d) != 0
  {
    hide Step, Run, Fits;
    var burst := d[start..start + w];
    var tail := |d| - start - w;
    assert d == Zeros(start) + burst + Zeros(tail);
    RunAppend(c, 0, Zeros(start) + burst, Zeros(tail));
    RunAppend(c, 0, Zeros(start), burst);
    ZeroStays(c, start);
    ZerosByElements(d);
    assert forall i :: start <= i < start + w ==> d[i] == burst[i - start];
    ShortIsSeen(c, burst);
    ZeroFits(c);
    RunFits(c, 0, burst);
    Persists(c, Run(c, 0, burst), tail);
  }

  /** Burst detection: changing any nonempty set of symbols within 13 (long
      code: 15) consecutive positions of a valid string is detected. */
  lemma BurstDetected(a: seq<Symbol>, b: seq<Symbol>, start: nat, w: nat)
    requires VerifyChecksum(a) && a != b
    requires w <= Width(CodeOf(|a|)) && start + w <= |a| && AgreeOutside(a, b, start, w)
    ensures !VerifyChecksum(b)
  {
    hide Step, Run, SymbolAdd;
    var c := CodeOf(|a|);
    var d := Xor(a, b);
    forall i | 0 <= i < |d| ensures d[i] == 0 <==> a[i] == b[i] {
      SymbolEqual(a[i], b[i]);
    }
    NoDifference(a, b);
    BurstIsSeen(c, d, start, w);
    DifferenceRun(c, a, b);
  }

  lemma NoDifference(a: seq<Symbol>, b: seq<Symbol>)
    requires |a| == |b|
    ensures Xor(a, b) == Zeros(|a|) ==> a == b
  {
    hide SymbolAdd;
    if Xor(a, b) == Zeros(|a|) {
      forall i | 0 <= i < |a| ensures a[i] == b[i] {
        assert Xor(a, b)[i] == 0;
        SymbolEqual(a[i], b[i]);
      }
    }
  }

  lemma SymbolEqual(v: Symbol, w: Symbol)
    ensures SymbolAdd(v, w) == 0 <==> v == w
  {
  }

  // ----- the window is as wide as possible -----

  /** The pattern 1 followed by the symbols of the first generator. */
  function GeneratorPattern(c: Code): (e: seq<Symbol>)
    ensures |e| == Width(c) + 1 && e[0] == 1
  {
    [1] + Digits(c, Generator(c, 0))
  }

  /** The residue with a one in symbol k. */
  function PowerAt(k: nat): Residue {
    if k == 0 then 1 else PowerAt(k - 1) << 5
  }

  lemma PowerTable()
    ensures PowerAt(1) == 0x20 && PowerAt(2) == 0x400 && PowerAt(3) == 0x8000
    ensures PowerAt(4) == 0x100000 && PowerAt(5) == 0x2000000 && PowerAt(6) == 0x40000000
    ensures PowerAt(7) == 0x800000000 && PowerAt(8) == 0x10000000000 && PowerAt(9) == 0x200000000000
    ensures PowerAt(10) == 0x4000000000000 && PowerAt(11) == 0x80000000000000 && PowerAt(12) == 0x1000000000000000
    ensures PowerAt(13) == 0x20000000000000000 && PowerAt(14) == 0x400000000000000000
  {
    assert PowerAt(1) == 0x20;
    assert PowerAt(2) == 0x400;
    assert PowerAt(3) == 0x8000;
    assert PowerAt(4) == 0x100000;
    assert PowerAt(5) == 0x2000000;
    assert PowerAt(6) == 0x40000000;
    assert PowerAt(7) == 0x800000000;
    assert PowerAt(8) == 0x10000000000;
    assert PowerAt(9) == 0x200000000000;
    assert PowerAt(10) == 0x4000000000000;
    assert PowerAt(11) == 0x80000000000000;
    assert PowerAt(12) == 0x1000000000000000;
    assert PowerAt(13) == 0x20000000000000000;
    assert PowerAt(14) == 0x400000000000000000;
  }

  lemma PowerDown(k: nat)
    requires 1 <= k <= 14
    ensures Shr(PowerAt(k)) == PowerAt(k - 1) && Last(PowerAt(k)) == 0
    ensures k <= 12 ==> Fits(Regular, PowerAt(k))
  {
    hide PowerAt;
    PowerTable();
    assert PowerAt(0) == 1 by { PowerAtZero(); }
  }

  lemma PowerAtZero()
    ensures PowerAt(0) == 1
  {
  }

  /** A one that reaches the top turns into the first generator. */
  lemma FirstGenerator(c: Code)
    ensures Fits(c, Generator(c, 0))
    ensures Step(c, PowerAt(Width(c) - 1), 0) == Generator(c, 0)
  {
    hide Step, PowerAt;
    PowerTable();
    StepWrittenOut(c, PowerAt(Width(c) - 1), 0);
  }

  lemma {:induction false} OneThenZeros(c: Code, k: nat)
    requires k < Width(c)
    ensures Run(c, 1, Zeros(k)) == PowerAt(k)
    decreases k
  {
    hide Step, Shr, Last, PowerAt;
    if k == 0 {
      PowerAtZero();
    } else {
      OneThenZeros(c, k - 1);
      assert Zeros(k)[..k - 1] == Zeros(k - 1);
      PowerDown(k);
      StepAppends(c, PowerAt(k));
    }
  }

  lemma PatternVanishes(c: Code)
    ensures Run(c, 0, GeneratorPattern(c)) == 0
  {
    hide Step, Run, Fits, Generator, PowerAt, Digits, Add, SymbolAdd;
    var w, g := Width(c), Generator(c, 0);
    RunAppend(c, 0, [1], Digits(c, g));
    RunOne(c);
    FirstGenerator(c);
    OneThenZeros(c, w - 1);
    assert Run(c, 1, Zeros(w)) == g by {
      RunAppend(c, 1, Zeros(w - 1), [0]);
      assert Zeros(w) == Zeros(w - 1) + [0];
      RunSingle(c, PowerAt(w - 1), 0);
    }
    DigitsRun(c, g);
    RunLinear(c, 1, 0, Zeros(w), Digits(c, g));
    ZeroXor(Digits(c, g));
    Cancels(1);
    Cancels(g);
  }

  lemma RunSingle(c: Code, r: Residue, v: Symbol)
    ensures Run(c, r, [v]) == Step(c, r, v)
  {
    hide Step;
    assert [v][..0] == [];
  }

  lemma RunOne(c: Code)
    ensures Run(c, 0, [1]) == 1
  {
    hide Step;
    RunSingle(c, 0, 1);
    StepWrittenOut(c, 0, 1);
  }

  /** One position more and a change can pass: a valid string stays valid when
      the generator pattern is added anywhere in it. */
  lemma WiderBurstCanPass(a: seq<Symbol>, start: nat) returns (b: seq<Symbol>)
    requires VerifyChecksum(a) && start + Width(CodeOf(|a|)) + 1 <= |a|
    ensures b != a && AgreeOutside(a, b, start, Width(CodeOf(|a|)) + 1) && VerifyChecksum(b)
  {
    hide Step, Run, SymbolAdd, GeneratorPattern;
    var c := CodeOf(|a|);
    var e := GeneratorPattern(c);
    var d := Zeros(start) + e + Zeros(|a| - start - |e|);
    b := Xor(a, d);
    forall i | 0 <= i < |a| ensures SymbolAdd(a[i], b[i]) == d[i] && (d[i] == 0 <==> a[i] == b[i]) {
      SymbolRestore(a[i], d[i]);
    }
    assert Xor(a, b) == d;
    assert d[start] == 1;
    RunAppend(c, 0, Zeros(start) + e, Zeros(|a| - start - |e|));
    RunAppend(c, 0, Zeros(start), e);
    ZeroStays(c, start);
    PatternVanishes(c);
    ZeroStays(c, |a| - start - |e|);
    DifferenceRun(c, a, b);
  }

  lemma SymbolRestore(v: Symbol, w: Symbol)
    ensures SymbolAdd(v, SymbolAdd(v, w)) == w
    ensures w == 0 <==> v == SymbolAdd(v, w)
  {
  }
}
