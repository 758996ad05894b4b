/** What the keys and ciphertexts of ML-KEM hold, in terms of the symmetric
    primitives, the ring product and single bits. */
module MlKemFormat {
  import opened ByteNumbers
  import opened ModArith
  import opened PowersOfTwo
  import opened MlKemField
  import opened MlKemNtt
  import opened MlKemRing
  import opened MlKemCoding
  import opened MlKemPke
  import opened MlKemNoise
  import opened MlKem
  import opened MlKemPacking

  // ----- roots, rounding and bits -----

  /** The first roots of appendix A of FIPS 203. */
  lemma RootValues()
    ensures Zeta(1) == 1729 && Zeta(2) == 2580 && Zeta(64) == 17
    ensures Gamma(0) == 17 && Gamma(1) == 3312
  {
    hide Pow;
    BitReversals();
    PowersOf17();
    DivModUnique(17, Q, 0, 17);
  }

  lemma BitReversals()
    ensures BitRev7(0) == 0 && BitRev7(1) == 64 && BitRev7(2) == 32 && BitRev7(64) == 1
  {
    hide Pow2, RevBits;
    SmallPowers();
    NoBitsReversed(7);
    RevNext(1, 7);
    NoBitsReversed(6);
    RevNext(2, 7);
    RevNext(1, 6);
    NoBitsReversed(5);
    RevNext(64, 7);
    RevNext(32, 6);
    RevNext(16, 5);
    RevNext(8, 4);
    RevNext(4, 3);
    RevNext(2, 2);
    RevNext(1, 1);
    NoBitsReversed(0);
  }

  lemma RevNext(i: nat, n: nat)
    requires 1 <= n
    ensures RevBits(i, n) == i % 2 * Pow2(n - 1) + RevBits(i / 2, n - 1)
  {
    hide Pow2;
  }

  lemma {:induction false} NoBitsReversed(n: nat)
    ensures RevBits(0, n) == 0
  {
    hide Pow2;
    if n != 0 {
      NoBitsReversed(n - 1);
    }
  }

  lemma SmallPowers()
    ensures Pow2(0) == 1 && Pow2(1) == 2 && Pow2(2) == 4 && Pow2(3) == 8 && Pow2(4) == 16 && Pow2(5) == 32 && Pow2(6) == 64
  {
    assert Pow2(3) == 2 * Pow2(2) && Pow2(5) == 2 * Pow2(4) && Pow2(6) == 2 * Pow2(5);
  }

  lemma PowersOf17()
    ensures Pow(17, 1) == 17 && Pow(17, 64) % Q == 1729 && Pow(17, 32) % Q == 2580 && Pow(17, 129) % Q == 3312
  {
    SquareStep(1, 17, 289);
    SquareStep(2, 289, 296);
    SquareStep(4, 296, 1062);
    SquareStep(8, 1062, 2642);
    SquareStep(16, 2642, 2580);
    SquareStep(32, 2580, 1729);
    assert Pow(17, 1) == 17 * Pow(17, 0);
    Pow17Shift(1);
    CongReduce(Pow(17, 64), Q);
    DivModUnique(-17, Q, -1, 3312);
  }

  /** Bit p of the packed bytes is bit p % d of coefficient p / d. */
  lemma EncodedBit(f: seq<nat>, d: nat, p: nat)
    requires |f| == 256 && 1 <= d && p < 256 * d
    ensures p / 8 < 32 * d && p / d < 256
    ensures ByteEncode(f, d)[p / 8] / Pow2(p % 8) % 2 == f[p / d] / Pow2(p % d) % 2
  {
    hide ByteEncode, Stream, Pow2;
    var k, j := p / 8, p % 8;
    PlaceInRow(p, d);
    var s := Stream(f, d);
    assert |s| == 256 * d == 32 * d * 8;
    EncodedByte(f, d, k);
    var c := s[8 * k..8 * k + 8];
    BitOfGroup(c, j);
    assert c[j] == s[p];
    StreamAt(f, d, p / d, p % d);
  }

  lemma PlaceInRow(p: nat, d: nat)
    requires 1 <= d && p < 256 * d
    ensures 0 <= p / d < 256 && p / d * d + p % d == p && 0 <= p % d < d
  {
    NaturalQuotient(p, d);
    var q := p / d;
    assert p == d * q + p % d;
    if q >= 256 {
      Monotone(d, 256, q);
    }
  }

  lemma EncodedByte(f: seq<nat>, d: nat, k: nat)
    requires |f| == 256 && k < 32 * d
    ensures 8 * k + 8 <= |Stream(f, d)| && ByteEncode(f, d)[k] == FromBits(Stream(f, d)[8 * k..8 * k + 8])
  {
    hide Stream, FromBits;
    assert |Stream(f, d)| == 32 * d * 8;
    GroupAt(Stream(f, d), 8, 32 * d, k);
  }

  lemma BitOfGroup(c: seq<Bit>, j: nat)
    requires j < |c|
    ensures FromBits(c) / Pow2(j) % 2 == c[j]
  {
    hide FromBits, Pow2, ToBits;
    ToFromBits(c);
    ToBitsAt(FromBits(c), |c|, j);
  }

  /** Compression gives the nearest multiple, modulo 2^d: 3329 is odd, so there
      are no ties. */
  lemma CompressNearest(x: Zq, d: nat) returns (k: nat)
    requires d == 1 || d == 4 || d == 10
    ensures Compress(x, d) < Pow2(d) && k <= 1
    ensures -1664 <= 3329 * (Compress(x, d) + k * Pow2(d)) - x * Pow2(d) <= 1664
  {
    hide Pow2;
    Powers();
    var w := (x * Pow2(d) + 1664) / 3329;
    if w < Pow2(d) {
      k := 0;
      DivModUnique(w, Pow2(d), 0, w);
    } else {
      k := 1;
      DivModUnique(w, Pow2(d), 1, w - Pow2(d));
    }
  }

  /** Decompression gives the nearest integer, the upper one at a tie. */
  lemma DecompressNearest(y: nat, d: nat)
    requires d == 1 || d == 4 || d == 10
    ensures var p: int := Pow2(d); -p < 2 * (p * Decompress(y, d) - 3329 * y) <= p
  {
    hide Pow2;
    Powers();
    var p := Pow2(d);
    assert p * ((y * 3329 + p / 2) / p) <= y * 3329 + p / 2 < p * ((y * 3329 + p / 2) / p) + p;
  }

  /** Bit k of a byte string, the lowest bit of a byte first. */
  function BitAt(buf: Bytes, k: nat): nat
    requires k / 8 < |buf|
  {
    buf[k / 8] / Pow2(k % 8) % 2
  }

  lemma BitAtIs(buf: Bytes, k: nat)
    requires k / 8 < |buf|
    ensures BitAt(buf, k) == BitOf(buf[k / 8], k % 8)
  {
    hide Pow2;
  }

  lemma MessageCoefficients(m: Bytes32, j: nat)
    requires j < 256
    ensures MessagePoly(m)[j] == 1665 * BitAt(m, j)
  {
    hide ByteEncode, ByteDecode, Pow2;
    Powers();
    var f := ByteDecode(m, 1);
    EncodeOfDecode(m, 1);
    EncodedBit(f, 1, j);
    assert Pow2(0) == 1 by { Pow2Zero(); }
    assert f[j] < 2;
  }

  lemma SampledCoefficient(buf: Bytes128, i: nat)
    requires i < 256
    ensures Cbd2(buf)[i] == (BitAt(buf, 4 * i) + BitAt(buf, 4 * i + 1) - BitAt(buf, 4 * i + 2) - BitAt(buf, 4 * i + 3) + 3329) % 3329
  {
    hide Stream, Pow2, BitOf, BitAt;
    BitAtIs(buf, 4 * i);
    BitAtIs(buf, 4 * i + 1);
    BitAtIs(buf, 4 * i + 2);
    BitAtIs(buf, 4 * i + 3);
    CbdOfStream(buf, i);
    StreamByte(buf, 4 * i);
    StreamByte(buf, 4 * i + 1);
    StreamByte(buf, 4 * i + 2);
    StreamByte(buf, 4 * i + 3);
  }

  lemma CbdOfStream(buf: Bytes128, i: nat)
    requires i < 256
    ensures |Stream(buf, 8)| == 1024
    ensures var b: seq<int> := Stream(buf, 8);
            Cbd2(buf)[i] == (b[4 * i] + b[4 * i + 1] - (b[4 * i + 2] + b[4 * i + 3]) + 3329) % 3329
  {
    hide Stream;
  }

  // ----- K-PKE -----

  /** The noise polynomial of PRF index n. */
  function Sample(o: Oracles, seed: Bytes, n: nat): Poly
    requires n < 256
  {
    Cbd2(o.prf(seed, n))
  }

  /** Entry (i, j) of the matrix as a polynomial: the sampler is given byte j
      and then byte i. */
  function Entry(o: Oracles, rho: Bytes, i: nat, j: nat): Poly
    requires i < 3 && j < 3
  {
    Intt(o.sampleNtt(rho, j, i))
  }

  /** e + a0 b0 + a1 b1 + a2 b2 in the ring. */
  function Sum3(e: Poly, a0: Poly, b0: Poly, a1: Poly, b1: Poly, a2: Poly, b2: Poly): Poly {
    PolyAdd(PolyAdd(PolyAdd(e, PolyMul(a0, b0)), PolyMul(a1, b1)), PolyMul(a2, b2))
  }

  /** The two halves of G(d || 3). */
  function Rho(o: Oracles, d: Bytes32): Bytes32 {
    o.g(d + [3])[..32]
  }

  function Sigma(o: Oracles, d: Bytes32): Bytes32 {
    o.g(d + [3])[32..]
  }

  function SecretPart(o: Oracles, d: Bytes32): (v: seq<Raw>)
    ensures |v| == 3
  {
    hide *;
    UnpackKey(PkeKeygen(o, d).1)
  }

  function PublicPart(o: Oracles, d: Bytes32): (v: seq<Raw>)
    ensures |v| == 3
  {
    hide *;
    UnpackKey(PkeKeygen(o, d).0)
  }

  /** The secret key holds the transforms of the first three samples. */
  lemma SecretKey(o: Oracles, d: Bytes32, i: nat)
    requires i < 3
    ensures SecretPart(o, d)[i] == Ntt(Sample(o, Sigma(o, d), i))
  {
    hide Ntt, Cbd2, PackKey, UnpackKey, Public;
    var s := NoiseVec(o, Sigma(o, d), 0);
    assert PkeKeygen(o, d).1 == PackKey(NttVec(s)) + [];
    UnpackPackedKey(NttVec(s), []);
  }

  /** Packing at fixed offsets, twelve bits a coefficient. */
  lemma KeyBytes(v: Vec, rest: Bytes, i: nat)
    requires i < 3
    ensures (PackKey(v) + rest)[384 * i..384 * i + 384] == ByteEncode(v[i], 12)
    ensures (PackKey(v) + rest)[1152..] == rest
  {
    hide ByteEncode;
    var data := PackKey(v) + rest;
    assert data[..384] == ByteEncode(v[0], 12);
    assert data[384..768] == ByteEncode(v[1], 12);
    assert data[768..1152] == ByteEncode(v[2], 12);
  }

  lemma {:induction false} MulAccInRing(e: Poly, a: Vec, b: Vec)
    ensures MulAcc(Ntt(e), a, NttVec(b))
         == Ntt(Sum3(e, Intt(a[0]), b[0], Intt(a[1]), b[1], Intt(a[2]), b[2]))
  {
    hide Ntt, Intt, PolyAdd, PolyMul, BaseMul, MulAcc;
    MulAcc3(Ntt(e), a, NttVec(b));
    OneProduct(e, a[0], b[0]);
    var x := PolyAdd(e, PolyMul(Intt(a[0]), b[0]));
    OneProduct(x, a[1], b[1]);
    OneProduct(PolyAdd(x, PolyMul(Intt(a[1]), b[1])), a[2], b[2]);
  }

  lemma OneProduct(e: Poly, a: Poly, b: Poly)
    ensures PolyAdd(Ntt(e), BaseMul(a, Ntt(b))) == Ntt(PolyAdd(e, PolyMul(Intt(a), b)))
  {
    hide Ntt, Intt, PolyAdd, PolyMul, BaseMul;
    NttIntt(a);
    NttOfProduct(Intt(a), b);
    NttOfSum(e, PolyMul(Intt(a), b));
  }

  /** The key equation t = A s + e, and the seed of A behind it. */
  lemma PublicKey(o: Oracles, d: Bytes32, i: nat)
    requires i < 3
    ensures PkeKeygen(o, d).0[1152..] == Rho(o, d)
    ensures PublicPart(o, d)[i] == Ntt(KeyEquation(o, Rho(o, d), Sigma(o, d), i))
  {
    hide Ntt, Intt, Cbd2, PackKey, UnpackKey, MulAcc, Sum3, NttVec;
    var rho, sigma := Rho(o, d), Sigma(o, d);
    var s, e := NoiseVec(o, sigma, 0), NoiseVec(o, sigma, 3);
    var t := Public(o, rho, s, e);
    var ek := PkeKeygen(o, d).0;
    assert ek == PackKey(t) + rho;
    assert ek[1152..] == rho;
    UnpackPackedKey(t, rho);
    MulAccInRing(e[i], MatrixRow(o, rho, i), s);
  }

  function KeyEquation(o: Oracles, rho: Bytes32, sigma: Bytes32, i: nat): Poly
    requires i < 3
  {
    hide *;
    Sum3(Sample(o, sigma, 3 + i), Entry(o, rho, i, 0), Sample(o, sigma, 0),
         Entry(o, rho, i, 1), Sample(o, sigma, 1), Entry(o, rho, i, 2), Sample(o, sigma, 2))
  }

  /** u = A^T y + e1, rounded to ten bits, at the start of the ciphertext. */
  lemma CiphertextU(o: Oracles, ek: EncKey, m: Bytes32, r: Bytes32, i: nat)
    requires i < 3
    ensures var rho := ek[1152..];
            PkeEncrypt(o, ek, m, r)[320 * i..320 * i + 320]
            == ByteEncode(CompressPoly(PolyAdd(
                 Sum3(Zero(), Entry(o, rho, 0, i), Sample(o, r, 0), Entry(o, rho, 1, i), Sample(o, r, 1),
                      Entry(o, rho, 2, i), Sample(o, r, 2)),
                 Sample(o, r, 3 + i)), 10), 10)
  {
    hide Ntt, Intt, Cbd2, MulAcc, Sum3, NttVec, PolyAdd, CompressPoly, ByteEncode, CipherV, UnpackKey, Zero;
    var rho := ek[1152..];
    var y, e1 := NoiseVec(o, r, 0), NoiseVec(o, r, 3);
    var u := CipherU(o, rho, y, e1);
    var v := CipherV(UnpackKey(ek), y, Cbd2(o.prf(r, 6)), m);
    CipherBytes(u, v);
    MulAccInRing(Zero(), MatrixColumn(o, rho, i), y);
    NttOfZero();
    InttNtt(Sum3(Zero(), Entry(o, rho, 0, i), Sample(o, r, 0), Entry(o, rho, 1, i), Sample(o, r, 1),
                 Entry(o, rho, 2, i), Sample(o, r, 2)));
    UEntry(o, rho, y, e1, i);
  }

  lemma UEntry(o: Oracles, rho: Bytes, y: Vec, e1: Vec, i: nat)
    requires i < 3
    ensures CipherU(o, rho, y, e1)[i] == PolyAdd(Intt(MulAcc(Zero(), MatrixColumn(o, rho, i), NttVec(y))), e1[i])
  {
    hide Intt, MulAcc, MatrixColumn, NttVec, PolyAdd, Zero;
  }

  lemma CipherBytes(u: Vec, v: Poly)
    ensures forall i :: 0 <= i < 3 ==> PackCipher(u, v)[320 * i..320 * i + 320] == ByteEncode(CompressPoly(u[i], 10), 10)
    ensures PackCipher(u, v)[960..] == ByteEncode(CompressPoly(v, 4), 4)
  {
    hide ByteEncode, CompressPoly;
    var c := PackCipher(u, v);
    assert c[..320] == ByteEncode(CompressPoly(u[0], 10), 10);
    assert c[320..640] == ByteEncode(CompressPoly(u[1], 10), 10);
    assert c[640..960] == ByteEncode(CompressPoly(u[2], 10), 10);
    assert c[960..] == ByteEncode(CompressPoly(v, 4), 4);
  }

  /** v = t y + e2 + mu, rounded to four bits, behind u; for a generated key. */
  lemma CiphertextV(o: Oracles, d: Bytes32, m: Bytes32, r: Bytes32)
    ensures forall i :: 0 <= i < 3 ==> Reduced12(PublicPart(o, d)[i])
    ensures PkeEncrypt(o, PkeKeygen(o, d).0, m, r)[960..]
         == ByteEncode(CompressPoly(VEquation(o, PublicPart(o, d), m, r), 4), 4)
  {
    hide Ntt, Intt, Cbd2, MulAcc, Sum3, NttVec, PolyAdd, CompressPoly, ByteEncode, CipherU, UnpackKey, Zero,
      MessagePoly, PkeKeygen;
    var ek := PkeKeygen(o, d).0;
    PublicKey(o, d, 0);
    PublicKey(o, d, 1);
    PublicKey(o, d, 2);
    var t: Vec := [PublicPart(o, d)[0], PublicPart(o, d)[1], PublicPart(o, d)[2]];
    assert UnpackKey(ek) == t;
    var y, e1 := NoiseVec(o, r, 0), NoiseVec(o, r, 3);
    CipherBytes(CipherU(o, ek[1152..], y, e1), CipherV(t, y, Cbd2(o.prf(r, 6)), m));
    MulAccInRing(Zero(), t, y);
    NttOfZero();
    InttNtt(Sum3(Zero(), Intt(t[0]), y[0], Intt(t[1]), y[1], Intt(t[2]), y[2]));
  }

  function VEquation(o: Oracles, t: seq<Raw>, m: Bytes32, r: Bytes32): Poly
    requires |t| == 3 && forall i :: 0 <= i < 3 ==> Reduced12(t[i])
  {
    hide Intt, Sum3, PolyAdd, MessagePoly, Sample, Zero;
    var t0, t1, t2 := AsPoly(t[0]), AsPoly(t[1]), AsPoly(t[2]);
    PolyAdd(PolyAdd(
      Sum3(Zero(), Intt(t0), Sample(o, r, 0), Intt(t1), Sample(o, r, 1), Intt(t2), Sample(o, r, 2)),
      Sample(o, r, 6)), MessagePoly(m))
  }

  predicate Reduced12(f: seq<nat>) {
    |f| == 256 && forall j :: 0 <= j < 256 ==> f[j] < 3329
  }

  function AsPoly(f: seq<nat>): (p: Poly)
    requires Reduced12(f)
    ensures p == f
  {
    f
  }

  // ----- the key encapsulation -----

  /** The decapsulation key: the secret key, the public key, its hash, z. */
  lemma DecapsulationKey(o: Oracles, d: Bytes32, z: Bytes32)
    ensures var (ek, dk) := KemKeygen(o, d, z);
            ek == PkeKeygen(o, d).0 && dk == PkeKeygen(o, d).1 + ek + o.h(ek) + z
  {
    hide PkeKeygen;
  }

  /** Key and randomness are the two halves of G(m || H(ek)). */
  lemma Encapsulation(o: Oracles, ek: EncKey, m: Bytes32)
    ensures var gh := o.g(m + o.h(ek));
            KemEncaps(o, ek, m) == (gh[..32], PkeEncrypt(o, ek, m, gh[32..]))
  {
    hide PkeEncrypt;
  }
}
