/** Repacking bytes into 5-bit symbols and back.  The accumulator of both loops
    is never masked, so it holds the whole input as one big-endian number. */
module Codex32Packing {
  import opened ByteNumbers
  import opened ModArith
  import opened PowersOfTwo

  type Five = x: int | 0 <= x < 32

  // ----- big-endian numbers -----

  function ByteNumber(s: seq<Byte>): (n: nat) {
    if s == [] then 0 else ByteNumber(s[..|s| - 1]) * 256 + s[|s| - 1]
  }

  function FiveNumber(s: seq<Five>): (n: nat) {
    if s == [] then 0 else FiveNumber(s[..|s| - 1]) * 32 + s[|s| - 1]
  }

  /** The k low base-256 digits of n, most significant first. */
  function ByteDigits(n: nat, k: nat): (s: seq<Byte>)
    ensures |s| == k
  {
    if k == 0 then [] else ByteDigits(n / 256, k - 1) + [n % 256]
  }

  /** The k low base-32 digits of n, most significant first. */
  function FiveDigits(n: nat, k: nat): (s: seq<Five>)
    ensures |s| == k
  {
    if k == 0 then [] else FiveDigits(n / 32, k - 1) + [n % 32]
  }

  lemma {:induction false} BytesOfNumber(s: seq<Byte>)
    ensures ByteDigits(ByteNumber(s), |s|) == s
  {
    if s != [] {
      var t, d := s[..|s| - 1], s[|s| - 1];
      BytesOfNumber(t);
      DivModUnique(ByteNumber(s), 256, ByteNumber(t), d);
      assert s == t + [d];
    }
  }

  lemma {:induction false} NumberOfFives(n: nat, k: nat)
    requires n < Pow2(5 * k)
    ensures FiveNumber(FiveDigits(n, k)) == n
    decreases k
  {
    if k == 0 {
      Pow2Zero();
    } else {
      Pow2Small();
      Pow2Add(5, 5 * (k - 1));
      NumberOfFives(n / 32, k - 1);
      var s := FiveDigits(n, k);
      assert s[..|s| - 1] == FiveDigits(n / 32, k - 1);
    }
  }

  lemma {:induction false} BytesBelow(s: seq<Byte>)
    ensures ByteNumber(s) < Pow2(8 * |s|)
  {
    if s == [] {
      Pow2Zero();
    } else {
      BytesBelow(s[..|s| - 1]);
      Pow2Small();
      Pow2Add(8, 8 * (|s| - 1));
    }
  }

  // ----- what the two loops compute -----

  /** The number of 5-bit groups that hold n bytes. */
  function FiveCount(n: nat): nat {
    (8 * n + 4) / 5
  }

  /** The zero bits that fill up the last of them. */
  function Padding(n: nat): (p: nat)
    ensures p <= 4 && 8 * n + p == 5 * FiveCount(n)
  {
    5 * FiveCount(n) - 8 * n
  }

  /** The bytes as base-32 digits, zero bits appended to fill the last one. */
  function To5Of(data: seq<Byte>): (s: seq<Five>)
    ensures |s| == FiveCount(|data|)
  {
    FiveDigits(ByteNumber(data) * Pow2(Padding(|data|)), FiveCount(|data|))
  }

  /** The whole bytes of the symbols; the bits left over, seven at most, are
      dropped. */
  function From5Of(symbols: seq<Five>): (s: seq<Byte>)
    ensures |s| == 5 * |symbols| / 8
  {
    ByteDigits(Down(FiveNumber(symbols), 5 * |symbols| % 8), 5 * |symbols| / 8)
  }

  /** At most four bits are dropped exactly for the symbol counts that packing
      produces. */
  lemma DroppedBits(n: nat)
    ensures 5 * n % 8 <= 4 <==> exists k: nat :: n == FiveCount(k)
  {
    if 5 * n % 8 <= 4 {
      var k: nat := 5 * n / 8;
      assert n == FiveCount(k);
    } else {
      forall k: nat ensures n != FiveCount(k) {
        var _ := Padding(k);
      }
    }
  }

  /** Three symbols hold one byte and seven bits that do not matter. */
  lemma SevenBitsDropped()
    ensures 5 * |[0, 0, 0]| % 8 == 7
    ensures From5Of([0, 0, 0]) == From5Of([0, 3, 31]) == [0]
  {
    hide Pow2;
    Pow2Seven();
    ThreeSymbols(0, 0, 0);
    ThreeSymbols(0, 3, 31);
    assert ByteDigits(0, 1) == ByteDigits(0, 0) + [0];
  }

  lemma Pow2Seven()
    ensures Pow2(7) == 128
  {
    Pow2Small();
    assert Pow2(8) == 2 * Pow2(7);
  }

  lemma ThreeSymbols(a: Five, b: Five, c: Five)
    ensures FiveNumber([a, b, c]) == 1024 * a + 32 * b + c
  {
    var s := [a, b, c];
    assert s[..2] == [a, b] && [a, b][..1] == [a] && [a][..0] == [];
    assert FiveNumber([a]) == a;
    assert FiveNumber([a, b]) == FiveNumber([a]) * 32 + b;
  }

  lemma {:induction false} FiveDigitsNext(acc: nat, bits: nat, k: nat)
    requires bits >= 5
    ensures FiveDigits(Down(acc, bits - 5), k + 1)
         == FiveDigits(Down(acc, bits), k) + [Down(acc, bits - 5) % 32]
  {
    Pow2Small();
    Pow2Add(bits - 5, 5);
    NestedDivision(acc, Pow2(bits - 5), 32);
  }

  lemma {:induction false} ByteDigitsNext(acc: nat, bits: nat, k: nat)
    requires bits >= 8
    ensures ByteDigits(Down(acc, bits - 8), k + 1)
         == ByteDigits(Down(acc, bits), k) + [Down(acc, bits - 8) % 256]
  {
    Pow2Small();
    Pow2Add(bits - 8, 8);
    NestedDivision(acc, Pow2(bits - 8), 256);
  }

  /** Appending a digit below the ones already taken changes none of them. */
  lemma Appended(acc: nat, d: nat, width: nat, bits: nat)
    requires d < Pow2(width)
    ensures Down(acc * Pow2(width) + d, bits + width) == Down(acc, bits)
  {
    var p := Pow2(width);
    Pow2Add(width, bits);
    NestedDivision(acc * p + d, p, Pow2(bits));
    DivModUnique(acc * p + d, p, acc, d);
  }

  method To5(data: seq<Byte>) returns (out: seq<Five>)
    ensures out == To5Of(data)
  {
    hide ByteNumber, FiveDigits, Pow2, To5Of;
    var acc: nat, bits: nat := 0, 0;
    out := [];
    Start();
    for i := 0 to |data|
      invariant bits < 5 && 5 * |out| + bits == 8 * i
      invariant acc == ByteNumber(data[..i])
      invariant out == FiveDigits(Down(acc, bits), |out|)
    {
      ByteNumberNext(data, i);
      Pow2Small();
      Appended(acc, data[i], 8, bits);
      acc := acc * 256 + data[i];
      bits := bits + 8;
      while bits >= 5
        invariant 5 * |out| + bits == 8 * (i + 1)
        invariant out == FiveDigits(Down(acc, bits), |out|)
      {
        FiveDigitsNext(acc, bits, |out|);
        bits := bits - 5;
        out := out + [Down(acc, bits) % 32];
      }
    }
    assert data[..|data|] == data;
    if bits != 0 {
      LastGroup(acc, bits, |out|);
      out := out + [acc * Pow2(5 - bits) % 32];
    } else {
      NoPadding(acc);
    }
    AllGroups(data, |out|);
  }

  lemma AllGroups(data: seq<Byte>, k: nat)
    requires 0 <= 5 * k - 8 * |data| <= 4
    ensures To5Of(data) == FiveDigits(ByteNumber(data) * Pow2(5 * k - 8 * |data|), k)
  {
    assert k == FiveCount(|data|);
  }

  lemma Start()
    ensures ByteNumber([]) == 0 && FiveNumber([]) == 0
    ensures forall n: nat :: FiveDigits(n, 0) == [] && ByteDigits(n, 0) == []
  {
  }

  lemma ByteNumberNext(s: seq<Byte>, i: nat)
    requires i < |s|
    ensures ByteNumber(s[..i + 1]) == ByteNumber(s[..i]) * 256 + s[i]
  {
    assert s[..i + 1][..i] == s[..i];
  }

  lemma FiveNumberNext(s: seq<Five>, i: nat)
    requires i < |s|
    ensures FiveNumber(s[..i + 1]) == FiveNumber(s[..i]) * 32 + s[i]
  {
    assert s[..i + 1][..i] == s[..i];
  }

  lemma NoPadding(acc: nat)
    ensures acc * Pow2(0) == acc == Down(acc, 0)
  {
    Pow2Zero();
    assert acc / 1 == acc;
  }

  lemma LastGroup(acc: nat, bits: nat, k: nat)
    requires 1 <= bits <= 4
    ensures FiveDigits(acc * Pow2(5 - bits), k + 1)
         == FiveDigits(Down(acc, bits), k) + [acc * Pow2(5 - bits) % 32]
  {
    var p := Pow2(5 - bits);
    Pow2Small();
    Pow2Add(5 - bits, bits);
    NestedDivision(acc * p, p, Pow2(bits));
    DivModUnique(acc * p, p, acc, 0);
  }

  method From5Trunc(symbols: seq<Five>) returns (out: seq<Byte>)
    ensures out == From5Of(symbols)
  {
    hide FiveNumber, ByteDigits, Pow2, From5Of;
    var acc: nat, bits: nat := 0, 0;
    out := [];
    Start();
    for i := 0 to |symbols|
      invariant bits < 8 && 8 * |out| + bits == 5 * i
      invariant acc == FiveNumber(symbols[..i])
      invariant out == ByteDigits(Down(acc, bits), |out|)
    {
      FiveNumberNext(symbols, i);
      Pow2Small();
      Appended(acc, symbols[i], 5, bits);
      acc := acc * 32 + symbols[i];
      bits := bits + 5;
      while bits >= 8
        invariant 8 * |out| + bits == 5 * (i + 1)
        invariant out == ByteDigits(Down(acc, bits), |out|)
      {
        ByteDigitsNext(acc, bits, |out|);
        bits := bits - 8;
        out := out + [Down(acc, bits) % 256];
      }
    }
    assert symbols[..|symbols|] == symbols;
    WholeBytes(symbols, |out|, bits);
  }

  lemma WholeBytes(symbols: seq<Five>, k: nat, bits: nat)
    requires bits < 8 && 8 * k + bits == 5 * |symbols|
    ensures From5Of(symbols) == ByteDigits(Down(FiveNumber(symbols), bits), k)
  {
    DivModUnique(5 * |symbols|, 8, k, bits);
  }

  /** Unpacking undoes packing for every byte string. */
  lemma PackingRoundTrip(data: seq<Byte>)
    ensures From5Of(To5Of(data)) == data
  {
    hide ByteNumber, FiveNumber, ByteDigits, FiveDigits, Pow2;
    var n, k := |data|, FiveCount(|data|);
    var pad := 5 * k - 8 * n;
    var v := ByteNumber(data);
    BytesBelow(data);
    Pow2Add(8 * n, pad);
    assert v * Pow2(pad) < Pow2(8 * n) * Pow2(pad) by {
      Monotone(Pow2(pad), v + 1, Pow2(8 * n));
      Distribute(v, 1, Pow2(pad));
    }
    NumberOfFives(v * Pow2(pad), k);
    assert 5 * k / 8 == n && 5 * k % 8 == pad by { DivModUnique(5 * k, 8, n, pad); }
    DivModUnique(v * Pow2(pad), Pow2(pad), v, 0);
    BytesOfNumber(data);
  }
}
