/** Published values of codex32: what the targets and the initial register
    spell, and two test vectors of BIP-93 through decoding. */
module Codex32Vectors {
  import opened ByteNumbers
  import opened Wrappers
  import opened Codex32Checksum
  import opened Codex32Packing
  import opened Codex32
  import opened ModArith
  import opened PowersOfTwo

  // ----- spelling -----

  /** The characters of the symbols. */
  function Spell(s: seq<Symbol>): string {
    Chars(AsFives(s))
  }

  lemma SpellJoin(s: seq<Symbol>, t: seq<Symbol>)
    ensures Spell(s + t) == Spell(s) + Spell(t)
  {
    assert AsFives(s + t) == AsFives(s) + AsFives(t);
    assert Chars(AsFives(s) + AsFives(t)) == Chars(AsFives(s)) + Chars(AsFives(t));
  }

  /** What the symbols hold as payload. */
  function Unpack(s: seq<Symbol>): seq<Byte> {
    From5Of(AsFives(s))
  }

  // ----- the constants -----

  lemma RunNone(c: Code, r: Residue)
    ensures Run(c, r, []) == r
  {
  }

  lemma RunNext(c: Code, r: Residue, s: seq<Symbol>, v: Symbol)
    ensures Run(c, r, s + [v]) == Step(c, Run(c, r, s), v)
  {
    assert (s + [v])[..|s|] == s;
  }

  /** Five symbols, with the registers between them. */
  lemma FiveSteps(c: Code, r: Residue, s: seq<Symbol>, r1: Residue, r2: Residue, r3: Residue, r4: Residue, r5: Residue)
    requires |s| == 5
    requires Written(c, r, s[0]) == r1 && Written(c, r1, s[1]) == r2 && Written(c, r2, s[2]) == r3
    requires Written(c, r3, s[3]) == r4 && Written(c, r4, s[4]) == r5
    ensures Run(c, r, s) == r5
  {
    hide Step, Written, Run;
    RunNone(c, r);
    RunNext(c, r, [], s[0]);
    RunNext(c, r, [s[0]], s[1]);
    RunNext(c, r, [s[0], s[1]], s[2]);
    RunNext(c, r, [s[0], s[1], s[2]], s[3]);
    RunNext(c, r, [s[0], s[1], s[2], s[3]], s[4]);
    WrittenIs(c, r, s[0]);
    WrittenIs(c, r1, s[1]);
    WrittenIs(c, r2, s[2]);
    WrittenIs(c, r3, s[3]);
    WrittenIs(c, r4, s[4]);
    assert [] + [s[0]] == [s[0]] && [s[0]] + [s[1]] == [s[0], s[1]];
    assert [s[0], s[1]] + [s[2]] == [s[0], s[1], s[2]] && [s[0], s[1], s[2]] + [s[3]] == [s[0], s[1], s[2], s[3]];
    assert [s[0], s[1], s[2], s[3]] + [s[4]] == s;
  }

  function Written(c: Code, r: Residue, v: Symbol): Residue {
    if c.Regular? then RegularStep(r, v) else LongStep(r, v)
  }

  lemma WrittenIs(c: Code, r: Residue, v: Symbol)
    ensures Written(c, r, v) == Step(c, r, v)
  {
    StepWrittenOut(c, r, v);
  }

  /** The register starts with the expanded prefix "ms" behind a one: the high
      bits of the two letters, a zero, and their low bits. */
  lemma InitialIsPrefix()
    ensures Run(Regular, 1, [3, 3, 0, 13, 19]) == INITIAL && Run(Long, 1, [3, 3, 0, 13, 19]) == INITIAL
  {
    FiveSteps(Regular, 1, [3, 3, 0, 13, 19], 0x23, 0x463, 0x8C60, 0x118C0D, 0x23181B3);
    FiveSteps(Long, 1, [3, 3, 0, 13, 19], 0x23, 0x463, 0x8C60, 0x118C0D, 0x23181B3);
  }

  /** The targets are words of the alphabet. */
  lemma TargetsSpell()
    ensures Chars(AsFives(Digits(Regular, MS32_CONST))) == "secretshare32"
    ensures Chars(AsFives(Digits(Long, MS32_LONG_CONST))) == "secretshare32ex"
  {
    hide Digits;
    RegularTarget();
    LongTarget();
  }

  lemma RegularTarget()
    ensures Digits(Regular, MS32_CONST) == [16, 25, 24, 3, 25, 11, 16, 23, 29, 3, 25, 17, 10]
  {
    hide Drop, Shr, Last;
    DropNone(0x10CE0795C2FD1E62A);
    LastOf(0x10CE0795C2FD1E62A, 0x86703CAE17E8F31, 10);
    DropNext(0x10CE0795C2FD1E62A, 0);
    LastOf(0x86703CAE17E8F31, 0x43381E570BF479, 17);
    DropNext(0x10CE0795C2FD1E62A, 1);
    LastOf(0x43381E570BF479, 0x219C0F2B85FA3, 25);
    DropNext(0x10CE0795C2FD1E62A, 2);
    LastOf(0x219C0F2B85FA3, 0x10CE0795C2FD, 3);
    DropNext(0x10CE0795C2FD1E62A, 3);
    LastOf(0x10CE0795C2FD, 0x86703CAE17, 29);
    DropNext(0x10CE0795C2FD1E62A, 4);
    LastOf(0x86703CAE17, 0x43381E570, 23);
    DropNext(0x10CE0795C2FD1E62A, 5);
    LastOf(0x43381E570, 0x219C0F2B, 16);
    DropNext(0x10CE0795C2FD1E62A, 6);
    LastOf(0x219C0F2B, 0x10CE079, 11);
    DropNext(0x10CE0795C2FD1E62A, 7);
    LastOf(0x10CE079, 0x86703, 25);
    DropNext(0x10CE0795C2FD1E62A, 8);
    LastOf(0x86703, 0x4338, 3);
    DropNext(0x10CE0795C2FD1E62A, 9);
    LastOf(0x4338, 0x219, 24);
    DropNext(0x10CE0795C2FD1E62A, 10);
    LastOf(0x219, 0x10, 25);
    DropNext(0x10CE0795C2FD1E62A, 11);
    LastOf(0x10, 0x0, 16);
  }

  lemma LongTarget()
    ensures Digits(Long, MS32_LONG_CONST) == [16, 25, 24, 3, 25, 11, 16, 23, 29, 3, 25, 17, 10, 25, 6]
  {
    hide Drop, Shr, Last;
    DropNone(0x43381E570BF4798AB26);
    LastOf(0x43381E570BF4798AB26, 0x219C0F2B85FA3CC559, 6);
    DropNext(0x43381E570BF4798AB26, 0);
    LastOf(0x219C0F2B85FA3CC559, 0x10CE0795C2FD1E62A, 25);
    DropNext(0x43381E570BF4798AB26, 1);
    LastOf(0x10CE0795C2FD1E62A, 0x86703CAE17E8F31, 10);
    DropNext(0x43381E570BF4798AB26, 2);
    LastOf(0x86703CAE17E8F31, 0x43381E570BF479, 17);
    DropNext(0x43381E570BF4798AB26, 3);
    LastOf(0x43381E570BF479, 0x219C0F2B85FA3, 25);
    DropNext(0x43381E570BF4798AB26, 4);
    LastOf(0x219C0F2B85FA3, 0x10CE0795C2FD, 3);
    DropNext(0x43381E570BF4798AB26, 5);
    LastOf(0x10CE0795C2FD, 0x86703CAE17, 29);
    DropNext(0x43381E570BF4798AB26, 6);
    LastOf(0x86703CAE17, 0x43381E570, 23);
    DropNext(0x43381E570BF4798AB26, 7);
    LastOf(0x43381E570, 0x219C0F2B, 16);
    DropNext(0x43381E570BF4798AB26, 8);
    LastOf(0x219C0F2B, 0x10CE079, 11);
    DropNext(0x43381E570BF4798AB26, 9);
    LastOf(0x10CE079, 0x86703, 25);
    DropNext(0x43381E570BF4798AB26, 10);
    LastOf(0x86703, 0x4338, 3);
    DropNext(0x43381E570BF4798AB26, 11);
    LastOf(0x4338, 0x219, 24);
    DropNext(0x43381E570BF4798AB26, 12);
    LastOf(0x219, 0x10, 25);
    DropNext(0x43381E570BF4798AB26, 13);
    LastOf(0x10, 0x0, 16);
  }

  lemma DropNone(r: Residue)
    ensures Drop(r, 0) == r
  {
  }

  lemma LastOf(r: Residue, next: Residue, d: Symbol)
    requires r >> 5 == next && (r & 31) as Symbol == d
    ensures Shr(r) == next && Last(r) == d
  {
  }

  /** A register after s, and then after t. */
  lemma ThenRun(c: Code, r: Residue, s: seq<Symbol>, m: Residue, t: seq<Symbol>, e: Residue)
    requires Run(c, r, s) == m && Run(c, m, t) == e
    ensures Run(c, r, s + t) == e
  {
    hide Step, Run;
    RunAppend(c, r, s, t);
  }

  lemma OneStep(c: Code, r: Residue, v: Symbol, r1: Residue)
    requires Written(c, r, v) == r1
    ensures Run(c, r, [v]) == r1
  {
    hide Step, Written, Run;
    RunNone(c, r);
    RunNext(c, r, [], v);
    WrittenIs(c, r, v);
    assert [] + [v] == [v];
  }

  lemma FourSteps(c: Code, r: Residue, s: seq<Symbol>, r1: Residue, r2: Residue, r3: Residue, r4: Residue)
    requires |s| == 4
    requires Written(c, r, s[0]) == r1 && Written(c, r1, s[1]) == r2 && Written(c, r2, s[2]) == r3 && Written(c, r3,
      s[3]) == r4
    ensures Run(c, r, s) == r4
  {
    hide Step, Written, Run;
    RunNone(c, r);
    RunNext(c, r, [], s[0]);
    RunNext(c, r, [s[0]], s[1]);
    RunNext(c, r, [s[0], s[1]], s[2]);
    RunNext(c, r, [s[0], s[1], s[2]], s[3]);
    WrittenIs(c, r, s[0]);
    WrittenIs(c, r1, s[1]);
    WrittenIs(c, r2, s[2]);
    WrittenIs(c, r3, s[3]);
    assert [] + [s[0]] == [s[0]] && [s[0]] + [s[1]] == [s[0], s[1]];
    assert [s[0], s[1]] + [s[2]] == [s[0], s[1], s[2]] && [s[0], s[1], s[2]] + [s[3]] == s;
  }

  // ----- unpacking in groups of eight symbols -----

  lemma {:induction false} FiveNumberJoin(s: seq<Five>, t: seq<Five>)
    ensures FiveNumber(s + t) == FiveNumber(s) * Pow2(5 * |t|) + FiveNumber(t)
    decreases |t|
  {
    hide Pow2;
    if t == [] {
      assert s + t == s;
      Pow2Zero();
    } else {
      var n := |t| - 1;
      FiveNumberJoin(s, t[..n]);
      assert (s + t)[..|s + t| - 1] == s + t[..n];
      Pow2Small();
      Pow2Add(5 * n, 5);
      Associate(FiveNumber(s), Pow2(5 * n), 32);
      Distribute(FiveNumber(s) * Pow2(5 * n), FiveNumber(t[..n]), 32);
    }
  }

  lemma {:induction false} FiveNumberBelow(s: seq<Five>)
    ensures FiveNumber(s) < Pow2(5 * |s|)
  {
    hide Pow2;
    if s == [] {
      Pow2Zero();
    } else {
      FiveNumberBelow(s[..|s| - 1]);
      Pow2Small();
      Pow2Add(5 * (|s| - 1), 5);
    }
  }

  lemma {:induction false} ByteDigitsJoin(a: nat, b: nat, n: nat, k: nat)
    requires b < Pow2(8 * k)
    ensures ByteDigits(a * Pow2(8 * k) + b, n + k) == ByteDigits(a, n) + ByteDigits(b, k)
    decreases k
  {
    hide Pow2;
    if k == 0 {
      Pow2Zero();
      assert ByteDigits(a, n) + ByteDigits(b, 0) == ByteDigits(a, n);
    } else {
      var p := Pow2(8 * (k - 1));
      Pow2Small();
      Pow2Add(8 * (k - 1), 8);
      var x := a * Pow2(8 * k) + b;
      Associate(a, p, 256);
      assert x == 256 * (a * p) + b;
      DivModUnique(x, 256, a * p + b / 256, b % 256);
      ByteDigitsJoin(a, b / 256, n, k - 1);
      assert ByteDigits(a, n) + (ByteDigits(b / 256, k - 1) + [b % 256])
          == (ByteDigits(a, n) + ByteDigits(b / 256, k - 1)) + [b % 256];
    }
  }

  /** Whole groups of eight symbols unpack by themselves. */
  lemma UnpackJoin(s: seq<Five>, t: seq<Five>)
    requires |s| % 8 == 0
    ensures From5Of(s + t) == From5Of(s) + From5Of(t)
  {
    hide FiveNumber, ByteDigits, Pow2, Down;
    var n, k, bits := 5 * |s| / 8, 5 * |t| / 8, 5 * |t| % 8;
    var a, b := FiveNumber(s), FiveNumber(t);
    JoinedDown(s, t, k, bits);
    DownNone(a);
    assert 5 * |s + t| / 8 == n + k && 5 * |s + t| % 8 == bits && 5 * |s| % 8 == 0;
    ByteDigitsJoin(a, Down(b, bits), n, k);
  }

  lemma JoinedDown(s: seq<Five>, t: seq<Five>, k: nat, bits: nat)
    requires 5 * |t| == 8 * k + bits
    ensures Down(FiveNumber(t), bits) < Pow2(8 * k)
    ensures Down(FiveNumber(s + t), bits) == FiveNumber(s) * Pow2(8 * k) + Down(FiveNumber(t), bits)
  {
    hide FiveNumber, Pow2, Down;
    var a, b := FiveNumber(s), FiveNumber(t);
    FiveNumberJoin(s, t);
    FiveNumberBelow(t);
    Pow2Add(8 * k, bits);
    Associate(a, Pow2(8 * k), Pow2(bits));
    DropLow(a * Pow2(8 * k), b, bits);
    DropBelow(b, bits, 8 * k);
  }

  lemma DownNone(a: nat)
    ensures Down(a, 0) == a
  {
    Pow2Zero();
  }

  lemma DropLow(x: nat, b: nat, bits: nat)
    ensures Down(x * Pow2(bits) + b, bits) == x + Down(b, bits)
  {
    hide Pow2;
    var p := Pow2(bits);
    NaturalQuotient(b, p);
    Distribute(x, b / p, p);
    DivModUnique(x * p + b, p, x + b / p, b % p);
  }

  lemma DropBelow(b: nat, bits: nat, k: nat)
    requires b < Pow2(k) * Pow2(bits)
    ensures Down(b, bits) < Pow2(k)
  {
    hide Pow2;
    var p := Pow2(bits);
    NaturalQuotient(b, p);
    var q := b / p;
    if q >= Pow2(k) {
      Monotone(p, Pow2(k), q);
    }
  }

  /** A number with one more digit. */
  function Then32(n: int, d: int): int {
    n * 32 + d
  }

  function Then256(n: int, d: int): int {
    n * 256 + d
  }

  lemma FiveNumberNextOf(s: seq<Five>, d: Five)
    ensures FiveNumber(s + [d]) == Then32(FiveNumber(s), d)
  {
    assert (s + [d])[..|s|] == s;
  }

  lemma FiveNumberOf(s: seq<Five>)
    ensures |s| == 8 ==>
      FiveNumber(s) == Then32(Then32(Then32(Then32(Then32(Then32(Then32(s[0], s[1]), s[2]), s[3]), s[4]), s[5]),
        s[6]), s[7])
    ensures |s| == 7 ==>
      FiveNumber(s) == Then32(Then32(Then32(Then32(Then32(Then32(s[0], s[1]), s[2]), s[3]), s[4]), s[5]), s[6])
    ensures |s| == 2 ==> FiveNumber(s) == Then32(s[0], s[1])
  {
    hide FiveNumber, Then32;
    NoFives();
    if |s| >= 2 {
      FiveNumberNextOf([], s[0]);
      FiveNumberNextOf([s[0]], s[1]);
      assert [] + [s[0]] == [s[0]] && [s[0]] + [s[1]] == [s[0], s[1]] == s[..2];
    }
    if |s| >= 7 {
      FiveNumberNextOf(s[..2], s[2]);
      FiveNumberNextOf(s[..3], s[3]);
      FiveNumberNextOf(s[..4], s[4]);
      FiveNumberNextOf(s[..5], s[5]);
      FiveNumberNextOf(s[..6], s[6]);
      assert s[..2] + [s[2]] == s[..3] && s[..3] + [s[3]] == s[..4] && s[..4] + [s[4]] == s[..5];
      assert s[..5] + [s[5]] == s[..6] && s[..6] + [s[6]] == s[..7];
    }
    if |s| == 8 {
      FiveNumberNextOf(s[..7], s[7]);
      assert s[..7] + [s[7]] == s;
    }
    assert s[..|s|] == s;
  }

  lemma NoFives()
    ensures FiveNumber([]) == 0
    ensures forall d: int :: Then32(0, d) == d
  {
  }

  /** The number of a group and its bytes. */
  lemma Eight(v: seq<Symbol>, n: nat, b: seq<Byte>)
    requires |v| == 8 && |b| == 5
    requires var s := AsFives(v); n == Then32(Then32(Then32(Then32(Then32(Then32(Then32(s[0], s[1]), s[2]), s[3]),
      s[4]), s[5]), s[6]), s[7])
    requires n == Then256(Then256(Then256(Then256(b[0], b[1]), b[2]), b[3]), b[4])
    ensures Unpack(v) == b
  {
    hide FiveNumber, ByteDigits;
    var s := AsFives(v);
    FiveNumberOf(s);
    BytesOf(b);
    BytesOfNumber(b);
    DownNone(n);
  }

  /** The last group, with the bits that are dropped. */
  lemma Remainder(v: seq<Symbol>, n: nat, b: seq<Byte>)
    requires (|v| == 7 && |b| == 4) || (|v| == 2 && |b| == 1)
    requires var s := AsFives(v); |s| == 7 ==> n == Then32(Then32(Then32(Then32(Then32(Then32(s[0], s[1]), s[2]),
      s[3]), s[4]), s[5]), s[6])
    requires |v| == 7 ==> n / 8 == Then256(Then256(Then256(b[0], b[1]), b[2]), b[3])
    requires var s := AsFives(v); |s| == 2 ==> n == Then32(s[0], s[1]) && n / 4 == b[0]
    ensures Unpack(v) == b
  {
    hide FiveNumber, ByteDigits, Pow2;
    var s := AsFives(v);
    FiveNumberOf(s);
    BytesOf(b);
    BytesOfNumber(b);
    Pow2Small();
    Pow2One();
    Pow2Add(1, 1);
  }

  lemma BytesOf(b: seq<Byte>)
    ensures |b| == 5 ==> ByteNumber(b) == Then256(Then256(Then256(Then256(b[0], b[1]), b[2]), b[3]), b[4])
    ensures |b| == 4 ==> ByteNumber(b) == Then256(Then256(Then256(b[0], b[1]), b[2]), b[3])
    ensures |b| == 1 ==> ByteNumber(b) == b[0]
  {
    hide ByteNumber, Then256;
    NoBytes();
    if |b| >= 1 {
      ByteNumberNextOf([], b[0]);
      assert [] + [b[0]] == [b[0]] == b[..1];
    }
    if |b| >= 4 {
      ByteNumberNextOf(b[..1], b[1]);
      ByteNumberNextOf(b[..2], b[2]);
      ByteNumberNextOf(b[..3], b[3]);
      assert b[..1] + [b[1]] == b[..2] && b[..2] + [b[2]] == b[..3] && b[..3] + [b[3]] == b[..4];
    }
    if |b| == 5 {
      ByteNumberNextOf(b[..4], b[4]);
      assert b[..4] + [b[4]] == b;
    }
    assert b[..|b|] == b;
  }

  lemma NoBytes()
    ensures ByteNumber([]) == 0
    ensures forall d: int :: Then256(0, d) == d
  {
  }

  lemma ByteNumberNextOf(s: seq<Byte>, d: Byte)
    ensures ByteNumber(s + [d]) == Then256(ByteNumber(s), d)
  {
    assert (s + [d])[..|s|] == s;
  }

  // ----- a string in pieces -----

  /** What the string s tells when it is read symbol by symbol: the register
      goes from r to e, the string is `text`, and the payload is `bytes`. */
  ghost predicate Piece(c: Code, r: Residue, s: seq<Symbol>, e: Residue, text: string, bytes: seq<Byte>) {
    Run(c, r, s) == e && Spell(s) == text && Unpack(s) == bytes
  }

  /** Two pieces make one; the first has whole groups of eight symbols. */
  lemma Pieces(c: Code, r: Residue, s: seq<Symbol>, m: Residue, t: seq<Symbol>, e: Residue,
               u: string, v: string, a: seq<Byte>, b: seq<Byte>)
    requires Piece(c, r, s, m, u, a) && Piece(c, m, t, e, v, b) && |s| % 8 == 0
    ensures Piece(c, r, s + t, e, u + v, a + b)
  {
    hide Step, Run, Spell, From5Of;
    RunAppend(c, r, s, t);
    SpellJoin(s, t);
    UnpackJoin(AsFives(s), AsFives(t));
    assert AsFives(s + t) == AsFives(s) + AsFives(t);
  }

  // ----- a regular string -----

  function FirstPayload(): seq<Symbol> {
    [6, 6, 6, 6, 6, 6, 6, 6]
    + [6, 6, 6, 6, 6, 6, 6, 6]
    + [6, 6, 6, 6, 6, 6, 6, 6]
    + [6, 6]
  }

  function FirstSeed(): seq<Byte> {
    [0x31, 0x8C, 0x63, 0x18, 0xC6]
    + [0x31, 0x8C, 0x63, 0x18, 0xC6]
    + [0x31, 0x8C, 0x63, 0x18, 0xC6]
    + [0x31]
  }

  lemma FirstHeaderRuns()
    ensures Run(Regular, 0x23181B3, [15, 11, 25, 16, 11, 16]) == 0x8C606CDEBCC170
  {
    hide Run;
    FiveSteps(Regular, 0x23181B3, [15, 11, 25, 16, 11], 0x4630366F, 0x8C606CDEB, 0x118C0D9BD79, 0x23181B37AF30,
      0x4630366F5E60B);
    OneStep(Regular, 0x4630366F5E60B, 16, 0x8C606CDEBCC170);
    ThenRun(Regular, 0x23181B3, [15, 11, 25, 16, 11], 0x4630366F5E60B, [16], 0x8C606CDEBCC170);
    var s5: seq<Symbol> := [15, 11, 25, 16, 11, 16];
    assert [15, 11, 25, 16, 11] + [16] == s5;
  }

  lemma FirstChecksumStart()
    ensures Run(Regular, 0x1FC67D7AFD4A02D94, [21, 19, 2, 12, 24, 29, 5, 24]) == 0x326278F9EB7DF72A
  {
    hide Run;
    FourSteps(Regular, 0x1FC67D7AFD4A02D94, [21, 19, 2, 12], 0x151F73591CFD8F909, 0x2FD33231B95E722B,
      0x45C846E9DCB1A04B, 0x142D1FDC4684FE73E);
    FourSteps(Regular, 0x142D1FDC4684FE73E, [24, 29, 5, 24], 0x1D6CF384B384056D0, 0x1BB44C9D2A4A874A8,
      0x4E4DDAC030A830CB, 0x326278F9EB7DF72A);
    ThenRun(Regular, 0x1FC67D7AFD4A02D94, [21, 19, 2, 12], 0x142D1FDC4684FE73E, [24, 29, 5, 24], 0x326278F9EB7DF72A);
    var s4: seq<Symbol> := [21, 19, 2, 12, 24, 29, 5, 24];
    assert [21, 19, 2, 12] + [24, 29, 5, 24] == s4;
  }

  lemma FirstChecksumEnd()
    ensures Run(Regular, 0x326278F9EB7DF72A, [27, 24, 2, 31, 14]) == MS32_CONST
  {
    hide Run;
    FiveSteps(Regular, 0x326278F9EB7DF72A, [27, 24, 2, 31, 14], 0x6E241F2DEB3CE262, 0x180F4C59C6E984723,
      0x11A275309F22C4695, 0xAE06C1C9F9B26FF5, 0x10CE0795C2FD1E62A);
  }

  lemma FirstChecksumRuns()
    ensures Run(Regular, 0x1FC67D7AFD4A02D94, [21, 19, 2, 12, 24, 29, 5, 24, 27, 24, 2, 31, 14]) == MS32_CONST
  {
    hide Run;
    FirstChecksumStart();
    FirstChecksumEnd();
    ThenRun(Regular, 0x1FC67D7AFD4A02D94, [21, 19, 2, 12, 24, 29, 5, 24], 0x326278F9EB7DF72A, [27, 24, 2, 31, 14],
      MS32_CONST);
    var s: seq<Symbol> := [21, 19, 2, 12, 24, 29, 5, 24, 27, 24, 2, 31, 14];
    assert [21, 19, 2, 12, 24, 29, 5, 24] + [27, 24, 2, 31, 14] == s;
  }

  lemma FirstHeaderSpelled()
    ensures Spell([15, 11, 25, 16, 11, 16]) == "0tests"
  {
  }

  lemma FirstChecksumSpelled()
    ensures Spell([21, 19, 2, 12, 24, 29, 5, 24, 27, 24, 2, 31, 14]) == "4nzvca9cmczlw"
  {
  }

  function FirstText(): string {
    "xxxxxxxx" + "xxxxxxxx" + "xxxxxxxx" + "xx"
  }

  lemma First0Runs()
    ensures Run(Regular, 0x8C606CDEBCC170, [6, 6, 6, 6, 6, 6, 6, 6]) == 0xEF314E8C460C784A
  {
    hide Run;
    FourSteps(Regular, 0x8C606CDEBCC170, [6, 6, 6, 6], 0x118C0D9BD7982E06, 0x1AC44B3B480F822D6, 0x1338796CAC95F1D18,
      0x25B0797060A6FB65);
    FourSteps(Regular, 0x25B0797060A6FB65, [6, 6, 6, 6], 0x109A12ED2E3A0898F, 0x1430C7A65BBD66EBC,
      0x1ED7FCC714B71668E, 0xEF314E8C460C784A);
    ThenRun(Regular, 0x8C606CDEBCC170, [6, 6, 6, 6], 0x25B0797060A6FB65, [6, 6, 6, 6], 0xEF314E8C460C784A);
    var s4: seq<Symbol> := [6, 6, 6, 6, 6, 6, 6, 6];
    assert [6, 6, 6, 6] + [6, 6, 6, 6] == s4;
  }

  lemma First0Spelled()
    ensures Spell([6, 6, 6, 6, 6, 6, 6, 6]) == "xxxxxxxx"
  {
  }

  lemma First0()
    ensures Piece(Regular, 0x8C606CDEBCC170, [6, 6, 6, 6, 6, 6, 6, 6], 0xEF314E8C460C784A, "xxxxxxxx",
      [0x31, 0x8C, 0x63, 0x18, 0xC6])
  {
    hide Run, Spell, Unpack;
    First0Runs();
    First0Spelled();
    Eight([6, 6, 6, 6, 6, 6, 6, 6], 0x318C6318C6, [0x31, 0x8C, 0x63, 0x18, 0xC6]);
  }

  lemma First1Runs()
    ensures Run(Regular, 0xEF314E8C460C784A, [6, 6, 6, 6, 6, 6, 6, 6]) == 0x15BB9A0BE00185FCE
  {
    hide Run;
    FourSteps(Regular, 0xEF314E8C460C784A, [6, 6, 6, 6], 0xD1C8B1142668FF90, 0x12C9C4208AE7A03E9, 0x5B0FE1F2F7F8C755,
      0x107E01E6F729EE6E4);
    FourSteps(Regular, 0x107E01E6F729EE6E4, [6, 6, 6, 6], 0x8B2A6DD79C1B83DC, 0x16DBFA4E6D93862B, 0x146BA4903C18D2776,
      0x15BB9A0BE00185FCE);
    ThenRun(Regular, 0xEF314E8C460C784A, [6, 6, 6, 6], 0x107E01E6F729EE6E4, [6, 6, 6, 6], 0x15BB9A0BE00185FCE);
    var s4: seq<Symbol> := [6, 6, 6, 6, 6, 6, 6, 6];
    assert [6, 6, 6, 6] + [6, 6, 6, 6] == s4;
  }

  lemma First1Spelled()
    ensures Spell([6, 6, 6, 6, 6, 6, 6, 6]) == "xxxxxxxx"
  {
  }

  lemma First1()
    ensures Piece(Regular, 0xEF314E8C460C784A, [6, 6, 6, 6, 6, 6, 6, 6], 0x15BB9A0BE00185FCE, "xxxxxxxx",
      [0x31, 0x8C, 0x63, 0x18, 0xC6])
  {
    hide Run, Spell, Unpack;
    First1Runs();
    First1Spelled();
    Eight([6, 6, 6, 6, 6, 6, 6, 6], 0x318C6318C6, [0x31, 0x8C, 0x63, 0x18, 0xC6]);
  }

  lemma First2Runs()
    ensures Run(Regular, 0x15BB9A0BE00185FCE, [6, 6, 6, 6, 6, 6, 6, 6]) == 0x1528843BD9618BC68
  {
    hide Run;
    FourSteps(Regular, 0x15BB9A0BE00185FCE, [6, 6, 6, 6], 0x1660197C8414AAADE, 0xF36C7910EF960FE7, 0xC7AB424F66DBE820,
      0x7D2729AECBE517F9);
    FourSteps(Regular, 0x7D2729AECBE517F9, [6, 6, 6, 6], 0x7D571536065B164D, 0x7350862FB19B20CD, 0x1B3A2E519499DF0CD,
      0x1528843BD9618BC68);
    ThenRun(Regular, 0x15BB9A0BE00185FCE, [6, 6, 6, 6], 0x7D2729AECBE517F9, [6, 6, 6, 6], 0x1528843BD9618BC68);
    var s4: seq<Symbol> := [6, 6, 6, 6, 6, 6, 6, 6];
    assert [6, 6, 6, 6] + [6, 6, 6, 6] == s4;
  }

  lemma First2Spelled()
    ensures Spell([6, 6, 6, 6, 6, 6, 6, 6]) == "xxxxxxxx"
  {
  }

  lemma First2()
    ensures Piece(Regular, 0x15BB9A0BE00185FCE, [6, 6, 6, 6, 6, 6, 6, 6], 0x1528843BD9618BC68, "xxxxxxxx",
      [0x31, 0x8C, 0x63, 0x18, 0xC6])
  {
    hide Run, Spell, Unpack;
    First2Runs();
    First2Spelled();
    Eight([6, 6, 6, 6, 6, 6, 6, 6], 0x318C6318C6, [0x31, 0x8C, 0x63, 0x18, 0xC6]);
  }

  lemma First3Runs()
    ensures Run(Regular, 0x1528843BD9618BC68, [6, 6]) == 0x1FC67D7AFD4A02D94
  {
    hide Run;
    OneStep(Regular, 0x1528843BD9618BC68, 6, 0x403DF7BA8156DE1E);
    OneStep(Regular, 0x403DF7BA8156DE1E, 6, 0x1FC67D7AFD4A02D94);
    ThenRun(Regular, 0x1528843BD9618BC68, [6], 0x403DF7BA8156DE1E, [6], 0x1FC67D7AFD4A02D94);
    var s1: seq<Symbol> := [6, 6];
    assert [6] + [6] == s1;
  }

  lemma First3Spelled()
    ensures Spell([6, 6]) == "xx"
  {
  }

  lemma First3()
    ensures Piece(Regular, 0x1528843BD9618BC68, [6, 6], 0x1FC67D7AFD4A02D94, "xx", [0x31])
  {
    hide Run, Spell, Unpack;
    First3Runs();
    First3Spelled();
    Remainder([6, 6], 0xC6, [0x31]);
  }

  lemma FirstPieces()
    ensures Piece(Regular, 0x8C606CDEBCC170, FirstPayload(), 0x1FC67D7AFD4A02D94, FirstText(), FirstSeed())
  {
    hide Piece;
    var s: seq<Symbol>, b: seq<Byte>, u := [6, 6, 6, 6, 6, 6, 6, 6], [0x31, 0x8C, 0x63, 0x18, 0xC6], "xxxxxxxx";
    First0();
    First1();
    Pieces(Regular, 0x8C606CDEBCC170, s, 0xEF314E8C460C784A, [6, 6, 6, 6, 6, 6, 6, 6], 0x15BB9A0BE00185FCE, u,
      "xxxxxxxx", b, [0x31, 0x8C, 0x63, 0x18, 0xC6]);
    s, b, u := s + [6, 6, 6, 6, 6, 6, 6, 6], b + [0x31, 0x8C, 0x63, 0x18, 0xC6], u + "xxxxxxxx";
    First2();
    Pieces(Regular, 0x8C606CDEBCC170, s, 0x15BB9A0BE00185FCE, [6, 6, 6, 6, 6, 6, 6, 6], 0x1528843BD9618BC68, u,
      "xxxxxxxx", b, [0x31, 0x8C, 0x63, 0x18, 0xC6]);
    s, b, u := s + [6, 6, 6, 6, 6, 6, 6, 6], b + [0x31, 0x8C, 0x63, 0x18, 0xC6], u + "xxxxxxxx";
    First3();
    Pieces(Regular, 0x8C606CDEBCC170, s, 0x1528843BD9618BC68, [6, 6], 0x1FC67D7AFD4A02D94, u, "xx", b, [0x31]);
    s, b, u := s + [6, 6], b + [0x31], u + "xx";
  }

  // ----- a long string -----

  function SecondPayload(): seq<Symbol> {
    [27, 17, 10, 2, 6, 9, 8, 28]
    + [23, 1, 24, 23, 11, 31, 28, 1]
    + [2, 3, 4, 5, 6, 7, 8, 9]
    + [10, 11, 12, 13, 14, 15, 16, 17]
    + [18, 19, 20, 21, 22, 23, 24, 25]
    + [26, 27, 28, 29, 30, 31, 0, 1]
    + [2, 4, 8, 16, 9, 18, 13, 26]
    + [29, 19, 15, 30, 21, 3, 6, 12]
    + [24, 25, 27, 31, 23, 7, 14, 28]
    + [17, 11, 22, 5, 10, 20, 29, 24]
    + [13, 25, 9, 8, 23, 18, 22, 31]
    + [27, 19, 1, 0, 3, 16, 11, 28]
    + [12, 14, 6, 4, 15, 26, 9]
  }

  function SecondSeed(): seq<Byte> {
    [0xDC, 0x54, 0x23, 0x25, 0x1C]
    + [0xB8, 0x71, 0x75, 0xFF, 0x81]
    + [0x10, 0xC8, 0x53, 0x1D, 0x09]
    + [0x52, 0xD8, 0xD7, 0x3E, 0x11]
    + [0x94, 0xE9, 0x5B, 0x5F, 0x19]
    + [0xD6, 0xF9, 0xDF, 0x7C, 0x01]
    + [0x11, 0x11, 0x04, 0xC9, 0xBA]
    + [0xEC, 0xDF, 0xEA, 0x8C, 0xCC]
    + [0xC6, 0x77, 0xFB, 0x9D, 0xDC]
    + [0x8A, 0xEC, 0x55, 0x53, 0xB8]
    + [0x6E, 0x52, 0x8B, 0xCA, 0xDF]
    + [0xDC, 0xC2, 0x01, 0xC1, 0x7C]
    + [0x63, 0x8C, 0x47, 0xE9]
  }

  lemma SecondHeaderRuns()
    ensures Run(Long, 0x23181B3, [15, 15, 24, 7, 12, 16]) == 0x8C606CDEFC1D90
  {
    hide Run;
    FiveSteps(Long, 0x23181B3, [15, 15, 24, 7, 12], 0x4630366F, 0x8C606CDEF, 0x118C0D9BDF8, 0x23181B37BF07,
      0x4630366F7E0EC);
    OneStep(Long, 0x4630366F7E0EC, 16, 0x8C606CDEFC1D90);
    ThenRun(Long, 0x23181B3, [15, 15, 24, 7, 12], 0x4630366F7E0EC, [16], 0x8C606CDEFC1D90);
    var s5: seq<Symbol> := [15, 15, 24, 7, 12, 16];
    assert [15, 15, 24, 7, 12] + [16] == s5;
  }

  lemma SecondChecksumStart()
    ensures Run(Long, 0x4458BDE76316C78F4CF, [23, 1, 12, 7, 15, 28, 19]) == 0x181D1C80752B026752B
  {
    hide Run;
    FiveSteps(Long, 0x4458BDE76316C78F4CF, [23, 1, 12, 7, 15], 0x2EC999D0BC414CD4731, 0x12A67A7C219AC9FFA8D,
      0xF0D4FA5F61E757BA2, 0x1E1A9F4BEC3CEAF7447, 0x50AE4CC68EE74C36F71);
    OneStep(Long, 0x50AE4CC68EE74C36F71, 28, 0x5971F4E03D16456C263);
    ThenRun(Long, 0x4458BDE76316C78F4CF, [23, 1, 12, 7, 15], 0x50AE4CC68EE74C36F71, [28], 0x5971F4E03D16456C263);
    var s5: seq<Symbol> := [23, 1, 12, 7, 15, 28];
    assert [23, 1, 12, 7, 15] + [28] == s5;
    OneStep(Long, 0x5971F4E03D16456C263, 19, 0x181D1C80752B026752B);
    ThenRun(Long, 0x4458BDE76316C78F4CF, [23, 1, 12, 7, 15, 28], 0x5971F4E03D16456C263, [19], 0x181D1C80752B026752B);
    var s6: seq<Symbol> := [23, 1, 12, 7, 15, 28, 19];
    assert [23, 1, 12, 7, 15, 28] + [19] == s6;
  }

  lemma SecondChecksumEnd()
    ensures Run(Long, 0x181D1C80752B026752B, [13, 12, 29, 3, 23, 3, 29, 22]) == MS32_LONG_CONST
  {
    hide Run;
    FourSteps(Long, 0x181D1C80752B026752B, [13, 12, 29, 3], 0x2D07E7C6FF44F819A64, 0x6B69B8B4412C5045020,
      0x37C73DF52A0E6EC677, 0x6F8E7BEA541CDD8CEE3);
    FourSteps(Long, 0x6F8E7BEA541CDD8CEE3, [23, 3, 29, 22], 0x22DDCA6EA7EFF9FC68A, 0x57EE337A310EA68007F,
      0xC27D1049375B59FB35, 0x43381E570BF4798AB26);
    ThenRun(Long, 0x181D1C80752B026752B, [13, 12, 29, 3], 0x6F8E7BEA541CDD8CEE3, [23, 3, 29, 22],
      0x43381E570BF4798AB26);
    var s4: seq<Symbol> := [13, 12, 29, 3, 23, 3, 29, 22];
    assert [13, 12, 29, 3] + [23, 3, 29, 22] == s4;
  }

  lemma SecondChecksumRuns()
    ensures Run(Long, 0x4458BDE76316C78F4CF,
      [23, 1, 12, 7, 15, 28, 19, 13, 12, 29, 3, 23, 3, 29, 22]) == MS32_LONG_CONST
  {
    hide Run;
    SecondChecksumStart();
    SecondChecksumEnd();
    ThenRun(Long, 0x4458BDE76316C78F4CF, [23, 1, 12, 7, 15, 28, 19], 0x181D1C80752B026752B,
      [13, 12, 29, 3, 23, 3, 29, 22], MS32_LONG_CONST);
    var s: seq<Symbol> := [23, 1, 12, 7, 15, 28, 19, 13, 12, 29, 3, 23, 3, 29, 22];
    assert [23, 1, 12, 7, 15, 28, 19] + [13, 12, 29, 3, 23, 3, 29, 22] == s;
  }

  lemma SecondHeaderSpelled()
    ensures Spell([15, 15, 24, 7, 12, 16]) == "00c8vs"
  {
  }

  lemma SecondChecksumSpelled()
    ensures Spell([23, 1, 12, 7, 15, 28, 19, 13, 12, 29, 3, 23, 3, 29, 22]) == "hpv80undvarhrak"
  {
  }

  function SecondText(): string {
    "m32zxfgu" + "hpchtlup" + "zry9x8gf" + "2tvdw0s3" + "jn54khce" + "6mua7lqp"
    + "zygsfjd6" + "an074rxv" + "cemlh8wu" + "3tk925ac" + "defghjkl" + "mnpqrstu"
    + "vwxy06f"
  }

  lemma Second0Runs()
    ensures Run(Long, 0x8C606CDEFC1D90, [27, 17, 10, 2, 6, 9, 8, 28]) == 0x2CC9320BC8DB7BEA5EA
  {
    hide Run;
    FourSteps(Long, 0x8C606CDEFC1D90, [27, 17, 10, 2], 0x118C0D9BDF83B21B, 0x23181B37BF0764371, 0x4630366F7E0EC86E2A,
      0x3139BEADAF4336F1DD5);
    FourSteps(Long, 0x3139BEADAF4336F1DD5, [6, 9, 8, 28], 0x7F5F306548AF9F94194, 0x6CCB20F35DBF624027A,
      0x4A76A94F939800655B5, 0x2CC9320BC8DB7BEA5EA);
    ThenRun(Long, 0x8C606CDEFC1D90, [27, 17, 10, 2], 0x3139BEADAF4336F1DD5, [6, 9, 8, 28], 0x2CC9320BC8DB7BEA5EA);
    var s4: seq<Symbol> := [27, 17, 10, 2, 6, 9, 8, 28];
    assert [27, 17, 10, 2] + [6, 9, 8, 28] == s4;
  }

  lemma Second0Spelled()
    ensures Spell([27, 17, 10, 2, 6, 9, 8, 28]) == "m32zxfgu"
  {
  }

  lemma Second0()
    ensures Piece(Long, 0x8C606CDEFC1D90, [27, 17, 10, 2, 6, 9, 8, 28], 0x2CC9320BC8DB7BEA5EA, "m32zxfgu",
      [0xDC, 0x54, 0x23, 0x25, 0x1C])
  {
    hide Run, Spell, Unpack;
    Second0Runs();
    Second0Spelled();
    Eight([27, 17, 10, 2, 6, 9, 8, 28], 0xDC5423251C, [0xDC, 0x54, 0x23, 0x25, 0x1C]);
  }

  lemma Second1Runs()
    ensures Run(Long, 0x2CC9320BC8DB7BEA5EA, [23, 1, 24, 23, 11, 31, 28, 1]) == 0x558D3363423FA6FE595
  {
    hide Run;
    FourSteps(Long, 0x2CC9320BC8DB7BEA5EA, [23, 1, 24, 23], 0x52B30112B2DC2E3A1FB, 0x1AD84E67BA7A04F133E,
      0x75ADBB3F15642AD58D1, 0x4801A70ED2D5A623FC3);
    FourSteps(Long, 0x4801A70ED2D5A623FC3, [11, 31, 28, 1], 0x6228FA23E16FB33EB3D, 0x51CFCD9D6CC0E5CB0D2,
      0x7541DF9C79E37AD3603, 0x558D3363423FA6FE595);
    ThenRun(Long, 0x2CC9320BC8DB7BEA5EA, [23, 1, 24, 23], 0x4801A70ED2D5A623FC3, [11, 31, 28, 1],
      0x558D3363423FA6FE595);
    var s4: seq<Symbol> := [23, 1, 24, 23, 11, 31, 28, 1];
    assert [23, 1, 24, 23] + [11, 31, 28, 1] == s4;
  }

  lemma Second1Spelled()
    ensures Spell([23, 1, 24, 23, 11, 31, 28, 1]) == "hpchtlup"
  {
  }

  lemma Second1()
    ensures Piece(Long, 0x2CC9320BC8DB7BEA5EA, [23, 1, 24, 23, 11, 31, 28, 1], 0x558D3363423FA6FE595, "hpchtlup",
      [0xB8, 0x71, 0x75, 0xFF, 0x81])
  {
    hide Run, Spell, Unpack;
    Second1Runs();
    Second1Spelled();
    Eight([23, 1, 24, 23, 11, 31, 28, 1], 0xB87175FF81, [0xB8, 0x71, 0x75, 0xFF, 0x81]);
  }

  lemma Second2Runs()
    ensures Run(Long, 0x558D3363423FA6FE595, [2, 3, 4, 5, 6, 7, 8, 9]) == 0x66E997ED4AF0DC73167
  {
    hide Run;
    FourSteps(Long, 0x558D3363423FA6FE595, [2, 3, 4, 5], 0x4047D22AF555BA5466A, 0x107DB2112770519CB12,
      0x5B89D95A8232EB3484A, 0x4718ABD791BEC97301D);
    FourSteps(Long, 0x4718ABD791BEC97301D, [6, 7, 8, 9], 0x46CB5FCEE940935DD60, 0x7CB5DCE1F68BD6872C1,
      0x1196B064993640268DB, 0x66E997ED4AF0DC73167);
    ThenRun(Long, 0x558D3363423FA6FE595, [2, 3, 4, 5], 0x4718ABD791BEC97301D, [6, 7, 8, 9], 0x66E997ED4AF0DC73167);
    var s4: seq<Symbol> := [2, 3, 4, 5, 6, 7, 8, 9];
    assert [2, 3, 4, 5] + [6, 7, 8, 9] == s4;
  }

  lemma Second2Spelled()
    ensures Spell([2, 3, 4, 5, 6, 7, 8, 9]) == "zry9x8gf"
  {
  }

  lemma Second2()
    ensures Piece(Long, 0x558D3363423FA6FE595, [2, 3, 4, 5, 6, 7, 8, 9], 0x66E997ED4AF0DC73167, "zry9x8gf",
      [0x10, 0xC8, 0x53, 0x1D, 0x09])
  {
    hide Run, Spell, Unpack;
    Second2Runs();
    Second2Spelled();
    Eight([2, 3, 4, 5, 6, 7, 8, 9], 0x10C8531D09, [0x10, 0xC8, 0x53, 0x1D, 0x09]);
  }

  lemma Second3Runs()
    ensures Run(Long, 0x66E997ED4AF0DC73167, [10, 11, 12, 13, 14, 15, 16, 17]) == 0x635DD7A58E85B50D7EB
  {
    hide Run;
    FourSteps(Long, 0x66E997ED4AF0DC73167, [10, 11, 12, 13], 0x74BBA63B4C73AA52310, 0x6AC20785F025B6D47FF,
      0x360B95E9739C34C3D86, 0x24438A8D80117FF9368);
    FourSteps(Long, 0x24438A8D80117FF9368, [14, 15, 16, 17], 0x397FFD6D9D80C0064A5, 0xD0CA4D526CD2D37A9A,
      0x6656A461BCE76C89EC0, 0x635DD7A58E85B50D7EB);
    ThenRun(Long, 0x66E997ED4AF0DC73167, [10, 11, 12, 13], 0x24438A8D80117FF9368, [14, 15, 16, 17],
      0x635DD7A58E85B50D7EB);
    var s4: seq<Symbol> := [10, 11, 12, 13, 14, 15, 16, 17];
    assert [10, 11, 12, 13] + [14, 15, 16, 17] == s4;
  }

  lemma Second3Spelled()
    ensures Spell([10, 11, 12, 13, 14, 15, 16, 17]) == "2tvdw0s3"
  {
  }

  lemma Second3()
    ensures Piece(Long, 0x66E997ED4AF0DC73167, [10, 11, 12, 13, 14, 15, 16, 17], 0x635DD7A58E85B50D7EB, "2tvdw0s3",
      [0x52, 0xD8, 0xD7, 0x3E, 0x11])
  {
    hide Run, Spell, Unpack;
    Second3Runs();
    Second3Spelled();
    Eight([10, 11, 12, 13, 14, 15, 16, 17], 0x52D8D73E11, [0x52, 0xD8, 0xD7, 0x3E, 0x11]);
  }

  lemma Second4Runs()
    ensures Run(Long, 0x635DD7A58E85B50D7EB, [18, 19, 20, 21, 22, 23, 24, 25]) == 0x14C236903A91DB60502
  {
    hide Run;
    FourSteps(Long, 0x635DD7A58E85B50D7EB, [18, 19, 20, 21], 0x7F6A7D50918023B2A1F, 0x6A6286487848E697300,
      0x221BAC587E363CAA27E, 0x4F22F5A10A360C49EE9);
    FourSteps(Long, 0x4F22F5A10A360C49EE9, [22, 23, 24, 25], 0x3B1B7DABAE4458516F7, 0x419CBC135E5E27D30C2,
      0x2B1075244603E171E09, 0x14C236903A91DB60502);
    ThenRun(Long, 0x635DD7A58E85B50D7EB, [18, 19, 20, 21], 0x4F22F5A10A360C49EE9, [22, 23, 24, 25],
      0x14C236903A91DB60502);
    var s4: seq<Symbol> := [18, 19, 20, 21, 22, 23, 24, 25];
    assert [18, 19, 20, 21] + [22, 23, 24, 25] == s4;
  }

  lemma Second4Spelled()
    ensures Spell([18, 19, 20, 21, 22, 23, 24, 25]) == "jn54khce"
  {
  }

  lemma Second4()
    ensures Piece(Long, 0x635DD7A58E85B50D7EB, [18, 19, 20, 21, 22, 23, 24, 25], 0x14C236903A91DB60502, "jn54khce",
      [0x94, 0xE9, 0x5B, 0x5F, 0x19])
  {
    hide Run, Spell, Unpack;
    Second4Runs();
    Second4Spelled();
    Eight([18, 19, 20, 21, 22, 23, 24, 25], 0x94E95B5F19, [0x94, 0xE9, 0x5B, 0x5F, 0x19]);
  }

  lemma Second5Runs()
    ensures Run(Long, 0x14C236903A91DB60502, [26, 27, 28, 29, 30, 31, 0, 1]) == 0x48E7B60B312ACA2963A
  {
    hide Run;
    FourSteps(Long, 0x14C236903A91DB60502, [26, 27, 28, 29], 0x71209B0A6D5D12852C3, 0x64FC73D286AC0A1A518,
      0x360721C2C7E9677ACE6, 0x25D50FFB0EBB08DBF78);
    FourSteps(Long, 0x25D50FFB0EBB08DBF78, [30, 31, 0, 1], 0xBAF53BC48CE245E6B5, 0xF719B3F2FD8E79C3B8,
      0x29F159209E5E39FBA90, 0x48E7B60B312ACA2963A);
    ThenRun(Long, 0x14C236903A91DB60502, [26, 27, 28, 29], 0x25D50FFB0EBB08DBF78, [30, 31, 0, 1],
      0x48E7B60B312ACA2963A);
    var s4: seq<Symbol> := [26, 27, 28, 29, 30, 31, 0, 1];
    assert [26, 27, 28, 29] + [30, 31, 0, 1] == s4;
  }

  lemma Second5Spelled()
    ensures Spell([26, 27, 28, 29, 30, 31, 0, 1]) == "6mua7lqp"
  {
  }

  lemma Second5()
    ensures Piece(Long, 0x14C236903A91DB60502, [26, 27, 28, 29, 30, 31, 0, 1], 0x48E7B60B312ACA2963A, "6mua7lqp",
      [0xD6, 0xF9, 0xDF, 0x7C, 0x01])
  {
    hide Run, Spell, Unpack;
    Second5Runs();
    Second5Spelled();
    Eight([26, 27, 28, 29, 30, 31, 0, 1], 0xD6F9DF7C01, [0xD6, 0xF9, 0xDF, 0x7C, 0x01]);
  }

  lemma Second6Runs()
    ensures Run(Long, 0x48E7B60B312ACA2963A, [2, 4, 8, 16, 9, 18, 13, 26]) == 0x7540A14F0D7E48DF904
  {
    hide Run;
    FourSteps(Long, 0x48E7B60B312ACA2963A, [2, 4, 8, 16], 0x7EEADA9F9E82326D414, 0x5A767FA9980ADD6B277,
      0x78EC75B4D6B802877B0, 0x27FA48B3CC126601E74);
    FourSteps(Long, 0x27FA48B3CC126601E74, [9, 18, 13, 26], 0x4E47BAA41DE3FF1C722, 0x17B29D0954FA32E2F93,
      0x1F35E827A02022D00F4, 0x7540A14F0D7E48DF904);
    ThenRun(Long, 0x48E7B60B312ACA2963A, [2, 4, 8, 16], 0x27FA48B3CC126601E74, [9, 18, 13, 26], 0x7540A14F0D7E48DF904);
    var s4: seq<Symbol> := [2, 4, 8, 16, 9, 18, 13, 26];
    assert [2, 4, 8, 16] + [9, 18, 13, 26] == s4;
  }

  lemma Second6Spelled()
    ensures Spell([2, 4, 8, 16, 9, 18, 13, 26]) == "zygsfjd6"
  {
  }

  lemma Second6()
    ensures Piece(Long, 0x48E7B60B312ACA2963A, [2, 4, 8, 16, 9, 18, 13, 26], 0x7540A14F0D7E48DF904, "zygsfjd6",
      [0x11, 0x11, 0x04, 0xC9, 0xBA])
  {
    hide Run, Spell, Unpack;
    Second6Runs();
    Second6Spelled();
    Eight([2, 4, 8, 16, 9, 18, 13, 26], 0x111104C9BA, [0x11, 0x11, 0x04, 0xC9, 0xBA]);
  }

  lemma Second7Runs()
    ensures Run(Long, 0x7540A14F0D7E48DF904, [29, 19, 15, 30, 21, 3, 6, 12]) == 0x465343472C9ADD949FB
  {
    hide Run;
    FourSteps(Long, 0x7540A14F0D7E48DF904, [29, 19, 15, 30], 0x55A2E90DD199E760569, 0x45BC9FF8819D89959FB,
      0x124DDA2CED288F8E1A9, 0x1D84DEE3C9292961F30);
    FourSteps(Long, 0x1D84DEE3C9292961F30, [21, 3, 6, 12], 0x236679C22C5F3EE018B, 0x609846EB4716450E05F,
      0x7D85489A3FE23DDC8B, 0x465343472C9ADD949FB);
    ThenRun(Long, 0x7540A14F0D7E48DF904, [29, 19, 15, 30], 0x1D84DEE3C9292961F30, [21, 3, 6, 12],
      0x465343472C9ADD949FB);
    var s4: seq<Symbol> := [29, 19, 15, 30, 21, 3, 6, 12];
    assert [29, 19, 15, 30] + [21, 3, 6, 12] == s4;
  }

  lemma Second7Spelled()
    ensures Spell([29, 19, 15, 30, 21, 3, 6, 12]) == "an074rxv"
  {
  }

  lemma Second7()
    ensures Piece(Long, 0x7540A14F0D7E48DF904, [29, 19, 15, 30, 21, 3, 6, 12], 0x465343472C9ADD949FB, "an074rxv",
      [0xEC, 0xDF, 0xEA, 0x8C, 0xCC])
  {
    hide Run, Spell, Unpack;
    Second7Runs();
    Second7Spelled();
    Eight([29, 19, 15, 30, 21, 3, 6, 12], 0xECDFEA8CCC, [0xEC, 0xDF, 0xEA, 0x8C, 0xCC]);
  }

  lemma Second8Runs()
    ensures Run(Long, 0x465343472C9ADD949FB, [24, 25, 27, 31, 23, 7, 14, 28]) == 0x7FBE3803147A02EEC2B
  {
    hide Run;
    FourSteps(Long, 0x465343472C9ADD949FB, [24, 25, 27, 31], 0x6FB64DD94DC20FAE1BE, 0x25DB0C0D9C35BDA2D24,
      0xA6F2D6E19188B7AD30, 0x377E4175150D030B318);
    FourSteps(Long, 0x377E4175150D030B318, [23, 7, 14, 28], 0xAF91901523786E40B2, 0x25B8CC9C70ECB0D0340,
      0x6173F53823925261A5, 0x7FBE3803147A02EEC2B);
    ThenRun(Long, 0x465343472C9ADD949FB, [24, 25, 27, 31], 0x377E4175150D030B318, [23, 7, 14, 28],
      0x7FBE3803147A02EEC2B);
    var s4: seq<Symbol> := [24, 25, 27, 31, 23, 7, 14, 28];
    assert [24, 25, 27, 31] + [23, 7, 14, 28] == s4;
  }

  lemma Second8Spelled()
    ensures Spell([24, 25, 27, 31, 23, 7, 14, 28]) == "cemlh8wu"
  {
  }

  lemma Second8()
    ensures Piece(Long, 0x465343472C9ADD949FB, [24, 25, 27, 31, 23, 7, 14, 28], 0x7FBE3803147A02EEC2B, "cemlh8wu",
      [0xC6, 0x77, 0xFB, 0x9D, 0xDC])
  {
    hide Run, Spell, Unpack;
    Second8Runs();
    Second8Spelled();
    Eight([24, 25, 27, 31, 23, 7, 14, 28], 0xC677FB9DDC, [0xC6, 0x77, 0xFB, 0x9D, 0xDC]);
  }

  lemma Second9Runs()
    ensures Run(Long, 0x7FBE3803147A02EEC2B, [17, 11, 22, 5, 10, 20, 29, 24]) == 0x763E5A4317282B69664
  {
    hide Run;
    FourSteps(Long, 0x7FBE3803147A02EEC2B, [17, 11, 22, 5], 0x70EA2C38C70CCD1B582, 0x5DAA9587CC97F9D4D28,
      0x3E28E20D164233544D9, 0x5AB69AB70DCDE15AD87);
    FourSteps(Long, 0x5AB69AB70DCDE15AD87, [10, 20, 29, 24], 0x60F0D6666E5F84B89B2, 0xACA452C8AC6150E139,
      0x23D349276EDECD9323A, 0x763E5A4317282B69664);
    ThenRun(Long, 0x7FBE3803147A02EEC2B, [17, 11, 22, 5], 0x5AB69AB70DCDE15AD87, [10, 20, 29, 24],
      0x763E5A4317282B69664);
    var s4: seq<Symbol> := [17, 11, 22, 5, 10, 20, 29, 24];
    assert [17, 11, 22, 5] + [10, 20, 29, 24] == s4;
  }

  lemma Second9Spelled()
    ensures Spell([17, 11, 22, 5, 10, 20, 29, 24]) == "3tk925ac"
  {
  }

  lemma Second9()
    ensures Piece(Long, 0x7FBE3803147A02EEC2B, [17, 11, 22, 5, 10, 20, 29, 24], 0x763E5A4317282B69664, "3tk925ac",
      [0x8A, 0xEC, 0x55, 0x53, 0xB8])
  {
    hide Run, Spell, Unpack;
    Second9Runs();
    Second9Spelled();
    Eight([17, 11, 22, 5, 10, 20, 29, 24], 0x8AEC5553B8, [0x8A, 0xEC, 0x55, 0x53, 0xB8]);
  }

  lemma Second10Runs()
    ensures Run(Long, 0x763E5A4317282B69664, [13, 25, 9, 8, 23, 18, 22, 31]) == 0x3FD97D3B25EB6833B65
  {
    hide Run;
    FourSteps(Long, 0x763E5A4317282B69664, [13, 25, 9, 8], 0x3A7D888E9B5591BE979, 0x6D4218B5FC671A2C10C,
      0x7B51A19BA8970DE3B74, 0x5040CD5C09F38A986EC);
    FourSteps(Long, 0x5040CD5C09F38A986EC, [23, 18, 22, 31], 0x44A1C7B0DF8E90BF1C8, 0x31E6D3272F4BAADE7D4,
      0x64B2813549BC1A601A4, 0x3FD97D3B25EB6833B65);
    ThenRun(Long, 0x763E5A4317282B69664, [13, 25, 9, 8], 0x5040CD5C09F38A986EC, [23, 18, 22, 31],
      0x3FD97D3B25EB6833B65);
    var s4: seq<Symbol> := [13, 25, 9, 8, 23, 18, 22, 31];
    assert [13, 25, 9, 8] + [23, 18, 22, 31] == s4;
  }

  lemma Second10Spelled()
    ensures Spell([13, 25, 9, 8, 23, 18, 22, 31]) == "defghjkl"
  {
  }

  lemma Second10()
    ensures Piece(Long, 0x763E5A4317282B69664, [13, 25, 9, 8, 23, 18, 22, 31], 0x3FD97D3B25EB6833B65, "defghjkl",
      [0x6E, 0x52, 0x8B, 0xCA, 0xDF])
  {
    hide Run, Spell, Unpack;
    Second10Runs();
    Second10Spelled();
    Eight([13, 25, 9, 8, 23, 18, 22, 31], 0x6E528BCADF, [0x6E, 0x52, 0x8B, 0xCA, 0xDF]);
  }

  lemma Second11Runs()
    ensures Run(Long, 0x3FD97D3B25EB6833B65, [27, 19, 1, 0, 3, 16, 11, 28]) == 0x24813AC7F06777A1D17
  {
    hide Run;
    FourSteps(Long, 0x3FD97D3B25EB6833B65, [27, 19, 1, 0], 0x64857C7178E68DA5A19, 0x3926D5BD0EB99084CC9,
      0x629BEC741E73D67714, 0x786E0A9B6FB90AC3A17);
    FourSteps(Long, 0x786E0A9B6FB90AC3A17, [3, 16, 11, 28], 0x37B5AD44EC336E9AA87, 0x13849F3E75FA34D7355,
      0x24AC7CB0D37E42440A5, 0x24813AC7F06777A1D17);
    ThenRun(Long, 0x3FD97D3B25EB6833B65, [27, 19, 1, 0], 0x786E0A9B6FB90AC3A17, [3, 16, 11, 28], 0x24813AC7F06777A1D17);
    var s4: seq<Symbol> := [27, 19, 1, 0, 3, 16, 11, 28];
    assert [27, 19, 1, 0] + [3, 16, 11, 28] == s4;
  }

  lemma Second11Spelled()
    ensures Spell([27, 19, 1, 0, 3, 16, 11, 28]) == "mnpqrstu"
  {
  }

  lemma Second11()
    ensures Piece(Long, 0x3FD97D3B25EB6833B65, [27, 19, 1, 0, 3, 16, 11, 28], 0x24813AC7F06777A1D17, "mnpqrstu",
      [0xDC, 0xC2, 0x01, 0xC1, 0x7C])
  {
    hide Run, Spell, Unpack;
    Second11Runs();
    Second11Spelled();
    Eight([27, 19, 1, 0, 3, 16, 11, 28], 0xDCC201C17C, [0xDC, 0xC2, 0x01, 0xC1, 0x7C]);
  }

  lemma Second12Runs()
    ensures Run(Long, 0x24813AC7F06777A1D17, [12, 14, 6, 4, 15, 26, 9]) == 0x4458BDE76316C78F4CF
  {
    hide Run;
    FiveSteps(Long, 0x24813AC7F06777A1D17, [12, 14, 6, 4, 15], 0x2129F4239341CB1AB47, 0x2969FADCA4C8FA5B9D2,
      0x5BF3C98C63F2BE2FE7D, 0x485AB10BA9B46A1F6FC, 0x694A3A8C8D5634ACCD9);
    OneStep(Long, 0x694A3A8C8D5634ACCD9, 26, 0x470C34C6DDEC7BD5950);
    ThenRun(Long, 0x24813AC7F06777A1D17, [12, 14, 6, 4, 15], 0x694A3A8C8D5634ACCD9, [26], 0x470C34C6DDEC7BD5950);
    var s5: seq<Symbol> := [12, 14, 6, 4, 15, 26];
    assert [12, 14, 6, 4, 15] + [26] == s5;
    OneStep(Long, 0x470C34C6DDEC7BD5950, 9, 0x4458BDE76316C78F4CF);
    ThenRun(Long, 0x24813AC7F06777A1D17, [12, 14, 6, 4, 15, 26], 0x470C34C6DDEC7BD5950, [9], 0x4458BDE76316C78F4CF);
    var s6: seq<Symbol> := [12, 14, 6, 4, 15, 26, 9];
    assert [12, 14, 6, 4, 15, 26] + [9] == s6;
  }

  lemma Second12Spelled()
    ensures Spell([12, 14, 6, 4, 15, 26, 9]) == "vwxy06f"
  {
  }

  lemma Second12()
    ensures Piece(Long, 0x24813AC7F06777A1D17, [12, 14, 6, 4, 15, 26, 9], 0x4458BDE76316C78F4CF, "vwxy06f",
      [0x63, 0x8C, 0x47, 0xE9])
  {
    hide Run, Spell, Unpack;
    Second12Runs();
    Second12Spelled();
    Remainder([12, 14, 6, 4, 15, 26, 9], 0x31C623F49, [0x63, 0x8C, 0x47, 0xE9]);
  }

  lemma SecondPieces()
    ensures Piece(Long, 0x8C606CDEFC1D90, SecondPayload(), 0x4458BDE76316C78F4CF, SecondText(), SecondSeed())
  {
    hide Piece;
    var s: seq<Symbol>, b: seq<Byte>, u := [27, 17, 10, 2, 6, 9, 8, 28], [0xDC, 0x54, 0x23, 0x25, 0x1C], "m32zxfgu";
    Second0();
    Second1();
    Pieces(Long, 0x8C606CDEFC1D90, s, 0x2CC9320BC8DB7BEA5EA, [23, 1, 24, 23, 11, 31, 28, 1], 0x558D3363423FA6FE595, u,
      "hpchtlup", b, [0xB8, 0x71, 0x75, 0xFF, 0x81]);
    s, b, u := s + [23, 1, 24, 23, 11, 31, 28, 1], b + [0xB8, 0x71, 0x75, 0xFF, 0x81], u + "hpchtlup";
    Second2();
    Pieces(Long, 0x8C606CDEFC1D90, s, 0x558D3363423FA6FE595, [2, 3, 4, 5, 6, 7, 8, 9], 0x66E997ED4AF0DC73167, u,
      "zry9x8gf", b, [0x10, 0xC8, 0x53, 0x1D, 0x09]);
    s, b, u := s + [2, 3, 4, 5, 6, 7, 8, 9], b + [0x10, 0xC8, 0x53, 0x1D, 0x09], u + "zry9x8gf";
    Second3();
    Pieces(Long, 0x8C606CDEFC1D90, s, 0x66E997ED4AF0DC73167, [10, 11, 12, 13, 14, 15, 16, 17], 0x635DD7A58E85B50D7EB,
      u, "2tvdw0s3", b, [0x52, 0xD8, 0xD7, 0x3E, 0x11]);
    s, b, u := s + [10, 11, 12, 13, 14, 15, 16, 17], b + [0x52, 0xD8, 0xD7, 0x3E, 0x11], u + "2tvdw0s3";
    Second4();
    Pieces(Long, 0x8C606CDEFC1D90, s, 0x635DD7A58E85B50D7EB, [18, 19, 20, 21, 22, 23, 24, 25], 0x14C236903A91DB60502,
      u, "jn54khce", b, [0x94, 0xE9, 0x5B, 0x5F, 0x19]);
    s, b, u := s + [18, 19, 20, 21, 22, 23, 24, 25], b + [0x94, 0xE9, 0x5B, 0x5F, 0x19], u + "jn54khce";
    Second5();
    Pieces(Long, 0x8C606CDEFC1D90, s, 0x14C236903A91DB60502, [26, 27, 28, 29, 30, 31, 0, 1], 0x48E7B60B312ACA2963A, u,
      "6mua7lqp", b, [0xD6, 0xF9, 0xDF, 0x7C, 0x01]);
    s, b, u := s + [26, 27, 28, 29, 30, 31, 0, 1], b + [0xD6, 0xF9, 0xDF, 0x7C, 0x01], u + "6mua7lqp";
    Second6();
    Pieces(Long, 0x8C606CDEFC1D90, s, 0x48E7B60B312ACA2963A, [2, 4, 8, 16, 9, 18, 13, 26], 0x7540A14F0D7E48DF904, u,
      "zygsfjd6", b, [0x11, 0x11, 0x04, 0xC9, 0xBA]);
    s, b, u := s + [2, 4, 8, 16, 9, 18, 13, 26], b + [0x11, 0x11, 0x04, 0xC9, 0xBA], u + "zygsfjd6";
    Second7();
    Pieces(Long, 0x8C606CDEFC1D90, s, 0x7540A14F0D7E48DF904, [29, 19, 15, 30, 21, 3, 6, 12], 0x465343472C9ADD949FB, u,
      "an074rxv", b, [0xEC, 0xDF, 0xEA, 0x8C, 0xCC]);
    s, b, u := s + [29, 19, 15, 30, 21, 3, 6, 12], b + [0xEC, 0xDF, 0xEA, 0x8C, 0xCC], u + "an074rxv";
    Second8();
    Pieces(Long, 0x8C606CDEFC1D90, s, 0x465343472C9ADD949FB, [24, 25, 27, 31, 23, 7, 14, 28], 0x7FBE3803147A02EEC2B,
      u, "cemlh8wu", b, [0xC6, 0x77, 0xFB, 0x9D, 0xDC]);
    s, b, u := s + [24, 25, 27, 31, 23, 7, 14, 28], b + [0xC6, 0x77, 0xFB, 0x9D, 0xDC], u + "cemlh8wu";
    Second9();
    Pieces(Long, 0x8C606CDEFC1D90, s, 0x7FBE3803147A02EEC2B, [17, 11, 22, 5, 10, 20, 29, 24], 0x763E5A4317282B69664,
      u, "3tk925ac", b, [0x8A, 0xEC, 0x55, 0x53, 0xB8]);
    s, b, u := s + [17, 11, 22, 5, 10, 20, 29, 24], b + [0x8A, 0xEC, 0x55, 0x53, 0xB8], u + "3tk925ac";
    Second10();
    Pieces(Long, 0x8C606CDEFC1D90, s, 0x763E5A4317282B69664, [13, 25, 9, 8, 23, 18, 22, 31], 0x3FD97D3B25EB6833B65, u,
      "defghjkl", b, [0x6E, 0x52, 0x8B, 0xCA, 0xDF]);
    s, b, u := s + [13, 25, 9, 8, 23, 18, 22, 31], b + [0x6E, 0x52, 0x8B, 0xCA, 0xDF], u + "defghjkl";
    Second11();
    Pieces(Long, 0x8C606CDEFC1D90, s, 0x3FD97D3B25EB6833B65, [27, 19, 1, 0, 3, 16, 11, 28], 0x24813AC7F06777A1D17, u,
      "mnpqrstu", b, [0xDC, 0xC2, 0x01, 0xC1, 0x7C]);
    s, b, u := s + [27, 19, 1, 0, 3, 16, 11, 28], b + [0xDC, 0xC2, 0x01, 0xC1, 0x7C], u + "mnpqrstu";
    Second12();
    Pieces(Long, 0x8C606CDEFC1D90, s, 0x24813AC7F06777A1D17, [12, 14, 6, 4, 15, 26, 9], 0x4458BDE76316C78F4CF, u,
      "vwxy06f", b, [0x63, 0x8C, 0x47, 0xE9]);
    s, b, u := s + [12, 14, 6, 4, 15, 26, 9], b + [0x63, 0x8C, 0x47, 0xE9], u + "vwxy06f";
  }

  // ----- decoding -----

  /** Decoding a string, in either case, whose parts verify. */
  lemma DecodeParts(s: string, h: seq<Symbol>, p: seq<Symbol>, q: seq<Symbol>)
    requires |h| == 6 && |q| == (if |p| >= 75 then 15 else 13)
    requires Lower(s) == "ms1" + Spell(h + p + q) && VerifyChecksum(h + p + q)
    ensures Decode(s) == Ok(Decoded(Digit(Spell(h)[0]), Spell(h)[1..5], Spell(h)[5..], Unpack(p)))
  {
    hide VerifyChecksum, ReadBody, Lower, Indices, From5Of;
    var t, v := Lower(s), h + p + q;
    assert t[..3] == "ms1" && t[3..] == Spell(v);
    IndicesOfChars(AsFives(v));
    SymbolsOfFives(v);
    HeaderRead(h, p, q);
  }

  lemma HeaderRead(h: seq<Symbol>, p: seq<Symbol>, q: seq<Symbol>)
    requires |h| == 6 && |q| == (if |p| >= 75 then 15 else 13)
    ensures ReadBody(WithoutChecksum(AsFives(h + p + q)))
         == Ok(Decoded(Digit(Spell(h)[0]), Spell(h)[1..5], Spell(h)[5..], Unpack(p)))
  {
    hide From5Of, Digit;
    var body := AsFives(h) + AsFives(p);
    assert WithoutChecksum(AsFives(h + p + q)) == body;
    assert body[6..] == AsFives(p);
    assert Chars(body[1..5]) == Spell(h)[1..5];
    assert [CHARSET[body[5]]] == Spell(h)[5..];
  }

  lemma ThenAll(c: Code, h: seq<Symbol>, m: Residue, p: seq<Symbol>, e: Residue, q: seq<Symbol>, text: string,
    seed: seq<Byte>)
    requires Run(c, INITIAL, h) == m && Piece(c, m, p, e, text, seed) && Run(c, e, q) == Target(c)
    ensures Run(c, INITIAL, h + p + q) == Target(c)
    ensures Spell(h + p + q) == Spell(h) + text + Spell(q)
  {
    hide Run, Spell, Unpack;
    ThenRun(c, INITIAL, h, m, p, e);
    ThenRun(c, INITIAL, h + p, e, q, Target(c));
    SpellJoin(h, p);
    SpellJoin(h + p, q);
  }

  /** A string that spells three such parts decodes to what they hold. */
  lemma DecodePieces(s: string, c: Code, h: seq<Symbol>, m: Residue, p: seq<Symbol>, e: Residue, q: seq<Symbol>,
                     text: string, seed: seq<Byte>)
    requires |h| == 6 && |q| == (if |p| >= 75 then 15 else 13) && c == (if |p| >= 75 then Long else Regular)
    requires Run(c, INITIAL, h) == m && Piece(c, m, p, e, text, seed) && Run(c, e, q) == Target(c)
    requires Lower(s) == "ms1" + Spell(h) + text + Spell(q)
    ensures Decode(s) == Ok(Decoded(Digit(Spell(h)[0]), Spell(h)[1..5], Spell(h)[5..], seed))
  {
    hide Run, Spell, Lower, Decode;
    ThenAll(c, h, m, p, e, q, text, seed);
    assert "ms1" + Spell(h) + text + Spell(q) == "ms1" + (Spell(h) + text + Spell(q));
    DecodeParts(s, h, p, q);
  }

  /** The first published string, in either case, holds its 16 bytes. */
  lemma FirstVector(s: string)
    requires Lower(s) == "ms1" + "0tests" + FirstText() + "4nzvca9cmczlw"
    ensures Decode(s) == Ok(Decoded(Some(0), "test", "s", FirstSeed()))
  {
    hide Run, Spell, Decode, Lower, Piece, FirstText, FirstSeed;
    FirstHeaderRuns();
    FirstHeaderSpelled();
    FirstPieces();
    FirstChecksumRuns();
    FirstChecksumSpelled();
    DecodePieces(s, Regular, [15, 11, 25, 16, 11, 16], 0x8C606CDEBCC170, FirstPayload(), 0x1FC67D7AFD4A02D94,
                 [21, 19, 2, 12, 24, 29, 5, 24, 27, 24, 2, 31, 14], FirstText(), FirstSeed());
    assert "0tests"[1..5] == "test" && "0tests"[5..] == "s";
  }

  /** The long published string, in either case, holds its 64 bytes. */
  lemma SecondVector(s: string)
    requires Lower(s) == "ms1" + "00c8vs" + SecondText() + "hpv80undvarhrak"
    ensures Decode(s) == Ok(Decoded(Some(0), "0c8v", "s", SecondSeed()))
  {
    hide Run, Spell, Decode, Lower, Piece, SecondText, SecondSeed;
    SecondHeaderRuns();
    SecondHeaderSpelled();
    SecondPieces();
    SecondChecksumRuns();
    SecondChecksumSpelled();
    DecodePieces(s, Long, [15, 15, 24, 7, 12, 16], 0x8C606CDEFC1D90, SecondPayload(), 0x4458BDE76316C78F4CF,
                 [23, 1, 12, 7, 15, 28, 19, 13, 12, 29, 3, 23, 3, 29, 22], SecondText(), SecondSeed());
    assert "00c8vs"[1..5] == "0c8v" && "00c8vs"[5..] == "s";
  }
}
