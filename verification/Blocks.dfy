/** Bytes, 16-byte blocks, their exclusive or, and block ciphers. */
module Blocks {
  import opened PowersOfTwo

  type Byte = bv8
  type Bytes = seq<Byte>
  type Digest = t: Bytes | |t| == 32 witness seq(32, _ => 0)
  type Hash = Bytes -> Digest
  type Block = b: Bytes | |b| == 16 witness seq(16, _ => 0)

  function XorByte(x: Byte, y: Byte): Byte {
    x ^ y
  }

  lemma XorByteTwice(x: Byte, y: Byte)
    ensures XorByte(XorByte(x, y), y) == x && XorByte(x, 0) == x && XorByte(x, y) == XorByte(y, x)
  {
  }

  function XorBytes(s: Bytes, t: Bytes): (u: Bytes)
    requires |s| == |t|
    ensures |u| == |s| && forall j :: 0 <= j < |u| ==> u[j] == XorByte(s[j], t[j])
  {
    seq(|s|, j requires 0 <= j < |s| => XorByte(s[j], t[j]))
  }

  lemma XorTwice(s: Bytes, t: Bytes)
    requires |s| == |t|
    ensures XorBytes(XorBytes(s, t), t) == s
  {
    hide XorByte;
    forall j | 0 <= j < |s| ensures XorBytes(XorBytes(s, t), t)[j] == s[j] {
      XorByteTwice(s[j], t[j]);
    }
  }

  lemma XorCommutes(s: Bytes, t: Bytes)
    requires |s| == |t|
    ensures XorBytes(s, t) == XorBytes(t, s)
  {
    hide XorByte;
    forall j | 0 <= j < |s| ensures XorBytes(s, t)[j] == XorBytes(t, s)[j] {
      XorByteTwice(s[j], t[j]);
    }
  }

  function Zeros(n: nat): (z: Bytes)
    ensures |z| == n && forall j :: 0 <= j < n ==> z[j] == 0
  {
    seq(n, _ => 0)
  }

  // ----- slices that clamp -----

  function Min(a: nat, b: nat): nat {
    if a <= b then a else b
  }

  /** Reading a slice beyond the end gives less. */
  function Slice(s: Bytes, lo: nat, hi: nat): (t: Bytes)
    requires lo <= hi
    ensures |t| <= hi - lo
    ensures |t| == hi - lo && lo < hi ==> hi <= |s| && t == s[lo..hi]
    ensures hi <= |s| ==> t == s[lo..hi]
  {
    s[Min(lo, |s|)..Min(hi, |s|)]
  }

  // ----- block ciphers -----

  /** A block cipher under one key. */
  datatype Cipher = Cipher(enc: Block -> Block, dec: Block -> Block)

  ghost predicate Permutation(c: Cipher) {
    forall x: Block :: c.dec(c.enc(x)) == x && c.enc(c.dec(x)) == x
  }

  // ----- bytes as numbers -----

  function Value(b: Byte): (n: nat)
    ensures n < 256
  {
    b as int
  }

  /** The byte that a truncating conversion keeps. */
  function Low(x: int): Byte {
    (x % 256) as Byte
  }

  lemma ValueOfLow(x: int)
    ensures Value(Low(x)) == x % 256
  {
    NumberRoundTrip(x % 256);
  }

  lemma NextByte(b: Byte)
    requires b != 255
    ensures (b + 1) as int == b as int + 1
  {
  }

  /** The byte reached from zero in n steps. */
  function Nth(n: nat): Byte {
    if n == 0 then 0 else Nth(n - 1) + 1
  }

  lemma ValueOfNext(b: Byte)
    requires Value(b) < 255
    ensures Value(b + 1) == Value(b) + 1
  {
    if b == 255 {
      assert false;
    }
    NextByte(b);
  }

  lemma ValueOfZero()
    ensures Value(0) == 0
  {
  }

  lemma {:induction false} ValueOfNth(n: nat)
    requires n < 256
    ensures Value(Nth(n)) == n
  {
    hide Value;
    if n == 0 {
      ValueOfZero();
    } else {
      ValueOfNth(n - 1);
      ValueOfNext(Nth(n - 1));
    }
  }

  /** Every number below 256 is the value of the byte it converts to. */
  lemma NumberRoundTrip(x: nat)
    requires x < 256
    ensures (x as Byte) as int == x
  {
    hide Nth;
    ValueOfNth(x);
    var b := Nth(x);
    assert (b as int) as Byte == b;
  }

  lemma LowOfValue(b: Byte)
    ensures Low(Value(b)) == b
  {
    var n := b as int;
    SmallRemainder(n);
  }

  lemma SmallRemainder(n: nat)
    requires n < 256
    ensures n % 256 == n
  {
  }

  // ----- numbers as little-endian bytes -----

  /** n in k bytes, the lowest one first. */
  function LittleEndian(n: nat, k: nat): (s: Bytes)
    ensures |s| == k
  {
    if k == 0 then [] else [Low(n)] + LittleEndian(n / 256, k - 1)
  }

  /** Byte i of a little-endian number. */
  lemma {:induction false} LittleEndianByte(n: nat, k: nat, i: nat)
    requires i < k
    ensures Value(LittleEndian(n, k)[i]) == n / Pow2(8 * i) % 256
    decreases k
  {
    hide Pow2, Low, Value;
    ValueOfLow(n);
    if i == 0 {
      Pow2Zero();
      assert n / 1 == n;
    } else {
      var p := Pow2(8 * (i - 1));
      LittleEndianByte(n / 256, k - 1, i - 1);
      Pow2Small();
      Pow2Add(8, 8 * (i - 1));
      NestedDivision(n, 256, p);
    }
  }

  lemma {:induction false} LittleEndianInjective(x: nat, y: nat, k: nat)
    requires x < Pow2(8 * k) && y < Pow2(8 * k) && LittleEndian(x, k) == LittleEndian(y, k)
    ensures x == y
  {
    hide Low, Pow2;
    if k == 0 {
      Pow2Zero();
    } else {
      var s, t := LittleEndian(x, k), LittleEndian(y, k);
      assert s[0] == Low(x) && t[0] == Low(y);
      assert s[1..] == LittleEndian(x / 256, k - 1) && t[1..] == LittleEndian(y / 256, k - 1);
      HigherBytes(x, k);
      HigherBytes(y, k);
      LittleEndianInjective(x / 256, y / 256, k - 1);
      ValueOfLow(x);
      ValueOfLow(y);
    }
  }

  lemma HigherBytes(n: nat, k: nat)
    requires 1 <= k && n < Pow2(8 * k)
    ensures n / 256 < Pow2(8 * (k - 1))
  {
    hide Pow2;
    Pow2Small();
    Pow2Add(8, 8 * (k - 1));
  }

  lemma {:induction false} LittleEndianOfZero(k: nat)
    ensures LittleEndian(0, k) == Zeros(k)
  {
    if k != 0 {
      LittleEndianOfZero(k - 1);
      assert Zeros(k) == [0] + Zeros(k - 1);
    }
  }

  /** A number below 2^(8k) leaves the bytes from k on zero. */
  lemma {:induction false} LittleEndianWide(n: nat, k: nat, m: nat)
    requires n < Pow2(8 * k)
    ensures LittleEndian(n, k + m) == LittleEndian(n, k) + Zeros(m)
    decreases k
  {
    hide Low, Pow2;
    if k == 0 {
      Pow2Zero();
      LittleEndianOfZero(m);
    } else {
      HigherBytes(n, k);
      LittleEndianWide(n / 256, k - 1, m);
      assert [Low(n)] + (LittleEndian(n / 256, k - 1) + Zeros(m)) == ([Low(n)] + LittleEndian(n / 256, k - 1)) + Zeros(m);
    }
  }
}
