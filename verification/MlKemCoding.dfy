/** Bit packing, lossy compression and the centred binomial sampler of ML-KEM. */
module MlKemCoding {
  import opened ByteNumbers
  import opened ModArith
  import opened PowersOfTwo
  import opened MlKemField

  type Bit = x: nat | x < 2

  // ----- bit streams, least significant bit first -----

  function ToBits(x: nat, w: nat): (b: seq<Bit>)
    ensures |b| == w
  {
    if w == 0 then [] else [x % 2] + ToBits(x / 2, w - 1)
  }

  function FromBits(b: seq<Bit>): (x: nat)
    ensures x < Pow2(|b|)
  {
    if b == [] then 0 else b[0] + 2 * FromBits(b[1..])
  }

  /** The bits of all entries of f, `w` bits an entry. */
  function Stream(f: seq<nat>, w: nat): (b: seq<Bit>)
    ensures |b| == |f| * w
  {
    if f == [] then [] else
    assert |f| * w == w + |f[1..]| * w;
    ToBits(f[0], w) + Stream(f[1..], w)
  }

  /** Consecutive groups of `w` bits read as numbers; a short tail is dropped. */
  function Group(b: seq<Bit>, w: nat): (f: seq<nat>)
    requires 1 <= w
    ensures forall i | 0 <= i < |f| :: f[i] < Pow2(w)
    decreases |b|
  {
    if |b| < w then [] else [FromBits(b[..w])] + Group(b[w..], w)
  }

  lemma {:induction false} FromToBits(x: nat, w: nat)
    requires x < Pow2(w)
    ensures FromBits(ToBits(x, w)) == x
    decreases w
  {
    if w != 0 {
      FromToBits(x / 2, w - 1);
      assert ToBits(x, w)[1..] == ToBits(x / 2, w - 1);
    }
  }

  lemma {:induction false} ToFromBits(b: seq<Bit>)
    ensures ToBits(FromBits(b), |b|) == b
  {
    hide ToBits, Pow2;
    if b == [] {
      NoToBits();
    } else {
      var t := FromBits(b[1..]);
      ToFromBits(b[1..]);
      LowBitSplits(b[0], t);
      ToBitsNext(FromBits(b), |b|);
      assert b == [b[0]] + b[1..];
    }
  }

  lemma NoToBits()
    ensures ToBits(FromBits([]), 0) == []
  {
  }

  lemma LowBitSplits(x: Bit, t: nat)
    ensures (x + 2 * t) % 2 == x && (x + 2 * t) / 2 == t
  {
  }

  lemma ToBitsNext(x: nat, w: nat)
    requires 1 <= w
    ensures ToBits(x, w) == [x % 2] + ToBits(x / 2, w - 1)
  {
  }

  lemma {:induction false} GroupLength(b: seq<Bit>, w: nat, n: nat)
    requires 1 <= w && |b| == n * w
    ensures |Group(b, w)| == n
    decreases n
  {
    if n != 0 {
      assert n * w == w + (n - 1) * w;
      GroupLength(b[w..], w, n - 1);
    }
  }

  lemma {:induction false} GroupOfStream(f: seq<nat>, w: nat)
    requires 1 <= w && forall i | 0 <= i < |f| :: f[i] < Pow2(w)
    ensures Group(Stream(f, w), w) == f
  {
    if f != [] {
      var b := Stream(f, w);
      FromToBits(f[0], w);
      GroupOfStream(f[1..], w);
      assert b[..w] == ToBits(f[0], w) && b[w..] == Stream(f[1..], w);
    }
  }

  lemma {:induction false} StreamOfGroup(b: seq<Bit>, w: nat, n: nat)
    requires 1 <= w && |b| == n * w
    ensures Stream(Group(b, w), w) == b
    decreases n
  {
    if n != 0 {
      assert n * w == w + (n - 1) * w;
      StreamOfGroup(b[w..], w, n - 1);
      ToFromBits(b[..w]);
      assert Group(b, w)[1..] == Group(b[w..], w);
      assert b == b[..w] + b[w..];
    }
  }

  // ----- byte_encode and byte_decode -----

  function ByteEncode(f: seq<nat>, d: nat): (out: Bytes)
    requires |f| == 256
    ensures |out| == 32 * d
  {
    assert |f| * d == (32 * d) * 8;
    GroupLength(Stream(f, d), 8, 32 * d);
    assert Pow2(8) == 256;
    Group(Stream(f, d), 8)
  }

  function ByteDecode(data: Bytes, d: nat): (f: seq<nat>)
    requires 1 <= d && |data| == 32 * d
    ensures |f| == 256
    ensures forall i | 0 <= i < 256 :: f[i] < Pow2(d)
  {
    assert |data| * 8 == 256 * d;
    GroupLength(Stream(data, 8), d, 256);
    Group(Stream(data, 8), d)
  }

  /** Packing keeps every entry below 2^d. */
  lemma DecodeOfEncode(f: seq<nat>, d: nat)
    requires 1 <= d && |f| == 256 && forall i | 0 <= i < 256 :: f[i] < Pow2(d)
    ensures ByteDecode(ByteEncode(f, d), d) == f
  {
    assert |f| * d == (32 * d) * 8;
    StreamOfGroup(Stream(f, d), 8, 32 * d);
    GroupOfStream(f, d);
  }

  /** Unpacking loses nothing, whatever the bytes. */
  lemma EncodeOfDecode(data: Bytes, d: nat)
    requires 1 <= d && |data| == 32 * d
    ensures ByteEncode(ByteDecode(data, d), d) == data
  {
    assert |data| * 8 == 256 * d;
    StreamOfGroup(Stream(data, 8), d, 256);
    assert Pow2(8) == 256;
    GroupOfStream(data, 8);
  }

  // ----- compression -----

  /** Rounding x p / q for p = 2^d, and y q / p. */
  function ScaleDown(x: int, p: nat): int
    requires 1 <= p
  {
    (x * p + 1664) / 3329 % p
  }

  function ScaleUp(y: int, p: nat): int
    requires 1 <= p
  {
    (y * 3329 + p / 2) / p
  }

  function Compress(x: Zq, d: nat): (y: nat)
    ensures y < Pow2(d)
  {
    ScaleDown(x, Pow2(d))
  }

  function Decompress(y: nat, d: nat): nat
    requires 1 <= d
  {
    ScaleUp(y, Pow2(d))
  }

  /** The representative of x in [-1664, 1664]. */
  function Centred(x: Zq): (c: int)
    ensures -1664 <= c <= 1664 && Cong(c, x, Q)
  {
    if x <= 1664 then x else
    var y: int := x;
    CongFrom(y - Q, y, -1, Q);
    y - Q
  }

  lemma Powers()
    ensures Pow2(1) == 2 && Pow2(3) == 8 && Pow2(4) == 16 && Pow2(9) == 512 && Pow2(10) == 1024 && Pow2(12) == 4096
  {
    assert Pow2(9) == 2 * Pow2(8);
    assert Pow2(12) == 2 * Pow2(11) && Pow2(11) == 2 * Pow2(10);
  }

  lemma DecompressReduced(y: nat, d: nat)
    requires d == 1 || d == 4 || d == 10
    requires y < Pow2(d)
    ensures Decompress(y, d) < Q
  {
    Powers();
  }

  /** Largest rounding error of compressing to d bits and back. */
  function CompressionError(d: nat): int {
    if d == 1 then 832 else if d == 4 then 104 else 2
  }

  lemma CompressionBound(x: Zq, d: nat)
    requires d == 1 || d == 4 || d == 10
    ensures Decompress(Compress(x, d), d) < Q
    ensures -CompressionError(d) <= Centred((Decompress(Compress(x, d), d) + Q - x) % Q) <= CompressionError(d)
  {
    hide ScaleUp, ScaleDown, Centred;
    Powers();
    var y, z := Compress(x, d), Decompress(Compress(x, d), d);
    if d == 1 {
      Rounding(x, 2, y, z, 832);
    } else if d == 4 {
      Rounding(x, 16, y, z, 104);
    } else {
      Rounding(x, 1024, y, z, 2);
    }
    CentredDifference(z, x, CompressionError(d));
  }

  /** Scaling by p/q with rounding and back moves x by at most e, modulo q. */
  lemma Rounding(x: Zq, p: nat, y: nat, z: nat, e: int)
    requires (p == 2 && e == 832) || (p == 16 && e == 104) || (p == 1024 && e == 2)
    requires y == ScaleDown(x, p) && z == ScaleUp(y, p)
    ensures z < Q && (-e <= z - x <= e || (z == 0 && Q - x <= e))
  {
    var w := (x * p + 1664) / 3329;
    assert 3329 * w <= x * p + 1664 < 3329 * w + 3329;
    if w < p {
      DivModUnique(w, p, 0, w);
    } else {
      DivModUnique(w, p, 1, 0);
    }
    assert p * z <= y * 3329 + p / 2 < p * z + p;
  }

  lemma CentredDifference(z: Zq, x: Zq, e: int)
    requires 0 <= e <= 1664 && (-e <= z - x <= e || (z == 0 && Q - x <= e))
    ensures -e <= Centred((z + Q - x) % Q) <= e
  {
    var d: int := z - x;
    if d < 0 {
      DivModUnique(d + Q, Q, 0, d + Q);
    } else {
      DivModUnique(d + Q, Q, 1, d);
    }
  }

  /** Compression keeps every value that decompression produces. */
  lemma CompressOfDecompress(y: nat, d: nat)
    requires d == 1 || d == 4 || d == 10
    requires y < Pow2(d)
    ensures Decompress(y, d) < Q && Compress(Decompress(y, d), d) == y
  {
    hide ScaleUp, ScaleDown;
    Powers();
    DecompressReduced(y, d);
    if d == 1 {
      RoundingBack(y, 2, Decompress(y, d));
    } else if d == 4 {
      RoundingBack(y, 16, Decompress(y, d));
    } else {
      RoundingBack(y, 1024, Decompress(y, d));
    }
  }

  lemma RoundingBack(y: nat, p: nat, z: nat)
    requires p == 2 || p == 16 || p == 1024
    requires y < p && z == ScaleUp(y, p)
    ensures ScaleDown(z, p) == y
  {
    assert p * z <= y * 3329 + p / 2 < p * z + p;
    DivModUnique(z * p + 1664, 3329, y, z * p + 1664 - y * 3329);
    DivModUnique(y, p, 0, y);
  }

  /** A one-bit message survives additive noise exactly in this window. */
  lemma OneBitDecision(b: Bit, noise: Zq)
    ensures Decompress(b, 1) < Q
    ensures Compress((Decompress(b, 1) + noise) % Q, 1) == b <==> -832 <= Centred(noise) <= 832 - b
  {
    Powers();
  }

  // ----- the centred binomial sampler -----

  /** Two fair bits minus two fair bits, per coefficient, modulo q. */
  function Cbd2(buf: Bytes): Poly
    requires |buf| == 128
  {
    var b := Stream(buf, 8);
    seq(256, i requires 0 <= i < 256 =>
      (b[4 * i] + b[4 * i + 1] - (b[4 * i + 2] + b[4 * i + 3]) + Q) % Q)
  }

  lemma Cbd2Small(buf: Bytes, i: nat)
    requires |buf| == 128 && i < 256
    ensures -2 <= Centred(Cbd2(buf)[i]) <= 2
  {
  }
}
