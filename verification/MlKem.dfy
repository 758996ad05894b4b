/** Correctness of K-PKE decryption and of the ML-KEM-768 key encapsulation. */
module MlKem {
  import opened ByteNumbers
  import opened ModArith
  import opened PowersOfTwo
  import opened MlKemField
  import opened MlKemNtt
  import opened MlKemRing
  import opened MlKemCoding
  import opened MlKemPke
  import opened MlKemNoise

  type DecapsKey = s: Bytes | |s| == 2400 witness seq(2400, _ => 0)

  // ----- packing -----

  lemma Below4096(f: Poly)
    ensures forall j | 0 <= j < 256 :: f[j] < Pow2(12)
  {
    Powers();
  }

  lemma UnpackPackedKey(v: Vec, rest: Bytes)
    ensures UnpackKey(PackKey(v) + rest) == v
  {
    hide ByteEncode, ByteDecode, Pow2;
    Below4096(v[0]);
    Below4096(v[1]);
    Below4096(v[2]);
    DecodeOfEncode(v[0], 12);
    DecodeOfEncode(v[1], 12);
    DecodeOfEncode(v[2], 12);
    var data := PackKey(v) + rest;
    assert data[..384] == ByteEncode(v[0], 12);
    assert data[384..768] == ByteEncode(v[1], 12);
    assert data[768..1152] == ByteEncode(v[2], 12);
  }

  /** What compression to d bits turns f into. */
  function Rounded(f: Poly, d: nat): Poly
    requires d == 1 || d == 4 || d == 10
  {
    DecompressPoly(CompressPoly(f, d), d)
  }

  function RoundedVec(u: Vec): Vec {
    [Rounded(u[0], 10), Rounded(u[1], 10), Rounded(u[2], 10)]
  }

  lemma UnpackPackedCipher(u: Vec, v: Poly)
    ensures UnpackU(PackCipher(u, v)) == RoundedVec(u)
    ensures UnpackV(PackCipher(u, v)) == Rounded(v, 4)
  {
    hide ByteEncode, ByteDecode, Pow2, CompressPoly, DecompressPoly;
    var c := PackCipher(u, v);
    var p0, p1, p2, p3 := CompressPoly(u[0], 10), CompressPoly(u[1], 10), CompressPoly(u[2], 10), CompressPoly(v, 4);
    DecodeOfEncode(p0, 10);
    DecodeOfEncode(p1, 10);
    DecodeOfEncode(p2, 10);
    DecodeOfEncode(p3, 4);
    assert c[..320] == ByteEncode(p0, 10);
    assert c[320..640] == ByteEncode(p1, 10);
    assert c[640..960] == ByteEncode(p2, 10);
    assert c[960..] == ByteEncode(p3, 4);
  }

  // ----- the noise of one encryption -----

  function VecAdd(a: Vec, b: Vec): Vec {
    [PolyAdd(a[0], b[0]), PolyAdd(a[1], b[1]), PolyAdd(a[2], b[2])]
  }

  function VecSub(a: Vec, b: Vec): Vec {
    [PolySub(a[0], b[0]), PolySub(a[1], b[1]), PolySub(a[2], b[2])]
  }

  /** e y - s (e1 + rounding of u) + e2 + rounding of v. */
  function NoiseOf(e: Vec, s: Vec, y: Vec, e1: Vec, e2: Poly, u: Vec, v: Poly): Poly {
    PolyAdd(PolyAdd(PolySub(
      PolyMulAcc(Zero(), e, y),
      PolyMulAcc(Zero(), s, VecAdd(e1, VecSub(RoundedVec(u), u)))), e2),
      PolySub(Rounded(v, 4), v))
  }

  /** The total noise when message m is encrypted with randomness r under the
      key pair generated from d. */
  function Noise(o: Oracles, d: Bytes32, m: Bytes32, r: Bytes32): Poly {
    hide *;
    var (rho, sigma) := KeySeeds(o, d);
    var s, e := NoiseVec(o, sigma, 0), NoiseVec(o, sigma, 3);
    var y, e1, e2 := NoiseVec(o, r, 0), NoiseVec(o, r, 3), Cbd2(o.prf(r, 6));
    NoiseOf(e, s, y, e1, e2, CipherU(o, rho, y, e1), CipherV(Public(o, rho, s, e), y, e2, m))
  }

  // ----- polynomial sums -----

  lemma SubThenAdd(a: Poly, b: Poly)
    ensures PolyAdd(a, PolySub(b, a)) == b
  {
    hide PolyAdd, PolySub;
    forall p | 0 <= p < 256
      ensures PolyAdd(a, PolySub(b, a))[p] == b[p]
    {
      AddAt(a, PolySub(b, a), p);
      AddAt(b, a, p);
      CancelDifference(At(PolyAdd(a, PolySub(b, a)), p), At(a, p), At(b, p), At(PolySub(b, a), p));
    }
  }

  lemma CancelDifference(x: int, a: int, b: int, c: int)
    requires Cong(x, a + c, Q) && Cong(c, b - a, Q) && 0 <= x < Q && 0 <= b < Q
    ensures x == b
  {
    CongAdd(a, a, c, b - a, Q);
    DivModUnique(x, Q, 0, x);
    DivModUnique(b, Q, 0, b);
  }

  lemma AddAssociates(a: Poly, b: Poly, c: Poly)
    ensures PolyAdd(PolyAdd(a, b), c) == PolyAdd(a, PolyAdd(b, c))
  {
    hide PolyAdd, Cong;
    forall p | 0 <= p < 256
      ensures PolyAdd(PolyAdd(a, b), c)[p] == PolyAdd(a, PolyAdd(b, c))[p]
    {
      AddAt(a, b, p);
      AddAt(PolyAdd(a, b), c, p);
      AddAt(b, c, p);
      AddAt(a, PolyAdd(b, c), p);
      SameSum(At(PolyAdd(PolyAdd(a, b), c), p), At(PolyAdd(a, PolyAdd(b, c)), p),
        At(PolyAdd(a, b), p), At(PolyAdd(b, c), p), At(a, p), At(b, p), At(c, p));
    }
  }

  lemma SameSum(x: int, y: int, ab: int, bc: int, a: int, b: int, c: int)
    requires Cong(x, ab + c, Q) && Cong(ab, a + b, Q) && Cong(y, a + bc, Q) && Cong(bc, b + c, Q)
    requires 0 <= x < Q && 0 <= y < Q
    ensures x == y
  {
    CongAdd(ab, a + b, c, c, Q);
    CongAdd(a, a, bc, b + c, Q);
    DivModUnique(x, Q, 0, x);
    DivModUnique(y, Q, 0, y);
  }

  /** (((x + e) + mu) + cv) - z equals mu plus ((x - z) + e) + cv. */
  lemma Rearrange(x: Poly, z: Poly, e: Poly, mu: Poly, cv: Poly)
    ensures PolySub(PolyAdd(PolyAdd(PolyAdd(x, e), mu), cv), z)
      == PolyAdd(mu, PolyAdd(PolyAdd(PolySub(x, z), e), cv))
  {
    hide PolyAdd, PolySub, Cong;
    var v := PolyAdd(PolyAdd(PolyAdd(x, e), mu), cv);
    var d := PolySub(x, z);
    var n := PolyAdd(PolyAdd(d, e), cv);
    forall p | 0 <= p < 256
      ensures PolySub(v, z)[p] == PolyAdd(mu, n)[p]
    {
      AddAt3(x, e, mu, cv, p);
      AddAt(v, z, p);
      AddAt(x, z, p);
      AddAt(d, e, p);
      AddAt(PolyAdd(d, e), cv, p);
      AddAt(mu, n, p);
      SameNoisy(At(PolySub(v, z), p), At(PolyAdd(mu, n), p), At(v, p), At(d, p), At(PolyAdd(d, e), p), At(n, p),
        At(x, p), At(z, p), At(e, p), At(mu, p), At(cv, p));
    }
  }

  lemma SameNoisy(l: int, r: int, v: int, d: int, de: int, n: int, x: int, z: int, e: int, mu: int, cv: int)
    requires Cong(v, x + e + mu + cv, Q) && Cong(l, v - z, Q) && Cong(d, x - z, Q)
    requires Cong(de, d + e, Q) && Cong(n, de + cv, Q) && Cong(r, mu + n, Q)
    requires 0 <= l < Q && 0 <= r < Q
    ensures l == r
  {
    CongSub(v, x + e + mu + cv, z, z, Q);
    CongAdd(d, x - z, e, e, Q);
    CongAdd(de, x - z + e, cv, cv, Q);
    CongAdd(mu, mu, n, x - z + e + cv, Q);
    DivModUnique(l, Q, 0, l);
    DivModUnique(r, Q, 0, r);
  }

  // ----- decryption recovers message plus noise -----

  /** One entry of the rounded u, in the transform domain. */
  lemma NttOfRoundedU(acc: Poly, e1: Poly, u: Poly)
    requires u == PolyAdd(Intt(acc), e1)
    ensures Ntt(Rounded(u, 10)) == PolyAdd(acc, Ntt(PolyAdd(e1, PolySub(Rounded(u, 10), u))))
  {
    hide Ntt, Intt, PolyAdd, PolySub, Rounded;
    var cu := PolySub(Rounded(u, 10), u);
    SubThenAdd(u, Rounded(u, 10));
    AddAssociates(Intt(acc), e1, cu);
    NttOfSum(Intt(acc), PolyAdd(e1, cu));
    NttIntt(acc);
  }

  lemma NttVecOf(a: Poly, b: Poly, c: Poly)
    ensures NttVec([a, b, c]) == [Ntt(a), Ntt(b), Ntt(c)]
  {
    hide Ntt;
  }

  lemma NttOfRoundedVec(o: Oracles, rho: Bytes, y: Vec, e1: Vec)
    ensures var u, n := CipherU(o, rho, y, e1), NttVec(VecAdd(e1, VecSub(RoundedVec(CipherU(o, rho, y, e1)), CipherU(o, rho, y, e1))));
      NttVec(RoundedVec(u)) == [
        PolyAdd(MulAcc(Zero(), MatrixColumn(o, rho, 0), NttVec(y)), n[0]),
        PolyAdd(MulAcc(Zero(), MatrixColumn(o, rho, 1), NttVec(y)), n[1]),
        PolyAdd(MulAcc(Zero(), MatrixColumn(o, rho, 2), NttVec(y)), n[2])]
  {
    hide Ntt, Intt, PolyAdd, PolySub, Rounded, MulAcc, MatrixColumn, NttVec, Zero;
    var u := CipherU(o, rho, y, e1);
    var yh := NttVec(y);
    NttOfRoundedU(MulAcc(Zero(), MatrixColumn(o, rho, 0), yh), e1[0], u[0]);
    NttOfRoundedU(MulAcc(Zero(), MatrixColumn(o, rho, 1), yh), e1[1], u[1]);
    NttOfRoundedU(MulAcc(Zero(), MatrixColumn(o, rho, 2), yh), e1[2], u[2]);
    NttVecOf(Rounded(u[0], 10), Rounded(u[1], 10), Rounded(u[2], 10));
    var x := VecAdd(e1, VecSub(RoundedVec(u), u));
    NttVecOf(x[0], x[1], x[2]);
  }

  /** The transform-domain difference of the two inner products, as polynomials. */
  lemma InnerProducts(o: Oracles, rho: Bytes, s: Vec, e: Vec, y: Vec, e1: Vec)
    ensures var u := CipherU(o, rho, y, e1);
      PolySub(Intt(MulAcc(Zero(), Public(o, rho, s, e), NttVec(y))), Intt(MulAcc(Zero(), NttVec(s), NttVec(RoundedVec(u)))))
      == PolySub(PolyMulAcc(Zero(), e, y), PolyMulAcc(Zero(), s, VecAdd(e1, VecSub(RoundedVec(u), u))))
  {
    hide Ntt, Intt, PolyAdd, PolySub, Rounded, MulAcc, NttVec, Zero, PolyMulAcc, CipherU, VecAdd, VecSub, RoundedVec;
    var u := CipherU(o, rho, y, e1);
    var x := VecAdd(e1, VecSub(RoundedVec(u), u));
    var t := Public(o, rho, s, e);
    var rows := [MatrixRow(o, rho, 0), MatrixRow(o, rho, 1), MatrixRow(o, rho, 2)];
    var cols := [MatrixColumn(o, rho, 0), MatrixColumn(o, rho, 1), MatrixColumn(o, rho, 2)];
    assert NttVec(e) == [Ntt(e[0]), Ntt(e[1]), Ntt(e[2])] by {
      NttVecOf(e[0], e[1], e[2]);
      assert e == [e[0], e[1], e[2]];
    }
    NttOfRoundedVec(o, rho, y, e1);
    MatrixCancels(NttVec(e), rows, cols, NttVec(s), NttVec(y), NttVec(x), t, NttVec(RoundedVec(u)));
    InttOfSum(MulAcc(Zero(), t, NttVec(y)), MulAcc(Zero(), NttVec(s), NttVec(RoundedVec(u))));
    InttOfSum(MulAcc(Zero(), NttVec(e), NttVec(y)), MulAcc(Zero(), NttVec(s), NttVec(x)));
    InttOfMulAcc(e, y);
    InttOfMulAcc(s, x);
  }

  /** Decryption computes the message polynomial plus the noise, exactly. */
  lemma DecodedIsNoisy(o: Oracles, d: Bytes32, m: Bytes32, r: Bytes32)
    ensures Decoded(PkeKeygen(o, d).1, PkeEncrypt(o, PkeKeygen(o, d).0, m, r)) == PolyAdd(MessagePoly(m), Noise(o, d, m, r))
  {
    hide Ntt, Intt, PolyAdd, PolySub, Rounded, MulAcc, NttVec, Zero, PolyMulAcc, CipherU, VecAdd, VecSub, RoundedVec,
      MessagePoly, Public, NoiseVec, KeySeeds, PackKey, UnpackKey, PackCipher, UnpackU, UnpackV, Cbd2;
    var (rho, sigma) := KeySeeds(o, d);
    var s, e := NoiseVec(o, sigma, 0), NoiseVec(o, sigma, 3);
    var y, e1, e2 := NoiseVec(o, r, 0), NoiseVec(o, r, 3), Cbd2(o.prf(r, 6));
    var t := Public(o, rho, s, e);
    var (ek, dk) := PkeKeygen(o, d);
    assert ek == PackKey(t) + rho && ek[1152..] == rho;
    UnpackPackedKey(t, rho);
    assert dk == PackKey(NttVec(s)) + [];
    UnpackPackedKey(NttVec(s), []);
    var u, v := CipherU(o, rho, y, e1), CipherV(t, y, e2, m);
    UnpackPackedCipher(u, v);
    SubThenAdd(v, Rounded(v, 4));
    InnerProducts(o, rho, s, e, y, e1);
    Rearrange(Intt(MulAcc(Zero(), t, NttVec(y))), Intt(MulAcc(Zero(), NttVec(s), NttVec(RoundedVec(u)))),
      e2, MessagePoly(m), PolySub(Rounded(v, 4), v));
  }

  // ----- when decryption is right -----

  /** The window in which one coefficient of noise leaves a message bit alone. */
  predicate Harmless(noise: Zq, bit: nat) {
    -832 <= Centred(noise) <= 832 - bit
  }

  function MessageBit(m: Bytes32, j: nat): (b: Bit)
    requires j < 256
  {
    assert ByteDecode(m, 1)[j] < Pow2(1);
    ByteDecode(m, 1)[j]
  }

  /** Bit j survives encryption and decryption exactly when its noise
      coefficient stays inside the window. */
  lemma DecryptBit(o: Oracles, d: Bytes32, m: Bytes32, r: Bytes32, j: nat)
    requires j < 256
    ensures var (ek, dk) := PkeKeygen(o, d);
      MessageBit(PkeDecrypt(dk, PkeEncrypt(o, ek, m, r)), j) == MessageBit(m, j)
      <==> Harmless(Noise(o, d, m, r)[j], MessageBit(m, j))
  {
    hide PkeKeygen, PkeEncrypt, Decoded, ByteEncode, ByteDecode, Noise, PolyAdd, Harmless, Compress;
    var (ek, dk) := PkeKeygen(o, d);
    var w := Decoded(dk, PkeEncrypt(o, ek, m, r));
    DecodedIsNoisy(o, d, m, r);
    DecodeOfEncode(CompressPoly(w, 1), 1);
    assert MessageBit(PkeDecrypt(dk, PkeEncrypt(o, ek, m, r)), j) == Compress(w[j], 1);
    MessageCoefficient(m, Noise(o, d, m, r), j);
  }

  lemma MessageCoefficient(m: Bytes32, n: Poly, j: nat)
    requires j < 256
    ensures Compress(PolyAdd(MessagePoly(m), n)[j], 1) == MessageBit(m, j) <==> Harmless(n[j], MessageBit(m, j))
  {
    hide ByteDecode, ScaleUp, ScaleDown, Centred, Compress;
    OneBitDecision(MessageBit(m, j), n[j]);
  }

  lemma SameBits(a: Bytes32, b: Bytes32)
    requires forall j | 0 <= j < 256 :: MessageBit(a, j) == MessageBit(b, j)
    ensures a == b
  {
    hide ByteDecode;
    EncodeOfDecode(a, 1);
    EncodeOfDecode(b, 1);
    forall j | 0 <= j < 256
      ensures ByteDecode(a, 1)[j] == ByteDecode(b, 1)[j]
    {
      assert MessageBit(a, j) == MessageBit(b, j);
    }
    assert ByteDecode(a, 1) == ByteDecode(b, 1);
  }

  /** Every coefficient of the noise is harmless for message m. */
  predicate QuietNoise(o: Oracles, d: Bytes32, m: Bytes32, r: Bytes32) {
    forall j | 0 <= j < 256 :: Harmless(Noise(o, d, m, r)[j], MessageBit(m, j))
  }

  /** Decryption returns the message if and only if the noise is quiet. */
  lemma DecryptIff(o: Oracles, d: Bytes32, m: Bytes32, r: Bytes32)
    ensures var (ek, dk) := PkeKeygen(o, d);
      PkeDecrypt(dk, PkeEncrypt(o, ek, m, r)) == m <==> QuietNoise(o, d, m, r)
  {
    hide PkeKeygen, PkeEncrypt, PkeDecrypt, MessageBit, Noise, Harmless;
    var (ek, dk) := PkeKeygen(o, d);
    var m' := PkeDecrypt(dk, PkeEncrypt(o, ek, m, r));
    forall j | 0 <= j < 256
      ensures MessageBit(m', j) == MessageBit(m, j) <==> Harmless(Noise(o, d, m, r)[j], MessageBit(m, j))
    {
      DecryptBit(o, d, m, r, j);
    }
    if QuietNoise(o, d, m, r) {
      SameBits(m', m);
    }
  }

  // ----- key encapsulation -----

  function KemKeygen(o: Oracles, d: Bytes32, z: Bytes32): (EncKey, DecapsKey) {
    hide *;
    var (ek, dk) := PkeKeygen(o, d);
    (ek, dk + ek + o.h(ek) + z)
  }

  /** The encryption randomness that encapsulation derives from m. */
  function EncapsSeed(o: Oracles, ek: EncKey, m: Bytes32): Bytes32 {
    o.g(m + o.h(ek))[32..]
  }

  function KemEncaps(o: Oracles, ek: EncKey, m: Bytes32): (Bytes32, Cipher) {
    hide *;
    (o.g(m + o.h(ek))[..32], PkeEncrypt(o, ek, m, EncapsSeed(o, ek, m)))
  }

  /** The key, and whether the ciphertext was implicitly rejected. */
  function KemDecaps(o: Oracles, dk: DecapsKey, c: Cipher): (Bytes32, bool) {
    hide *;
    var m := PkeDecrypt(dk[..1152], c);
    var gh := o.g(m + dk[2336..2368]);
    if PkeEncrypt(o, dk[1152..2336], m, gh[32..]) != c then (o.j(dk[2368..] + c), true)
    else (gh[..32], false)
  }

  lemma DecapsKeyParts(o: Oracles, d: Bytes32, z: Bytes32)
    ensures var (ek, dk) := KemKeygen(o, d, z);
      dk[..1152] == PkeKeygen(o, d).1 && dk[1152..2336] == ek == PkeKeygen(o, d).0
      && dk[2336..2368] == o.h(ek) && dk[2368..] == z
  {
    hide PkeKeygen;
  }

  /** With quiet noise the receiver derives the sender's key. */
  lemma KemCorrect(o: Oracles, d: Bytes32, z: Bytes32, m: Bytes32)
    requires QuietNoise(o, d, m, EncapsSeed(o, PkeKeygen(o, d).0, m))
    ensures var (ek, dk) := KemKeygen(o, d, z);
      var (key, c) := KemEncaps(o, ek, m);
      KemDecaps(o, dk, c) == (key, false)
  {
    hide PkeKeygen, PkeEncrypt, PkeDecrypt, QuietNoise, KemKeygen;
    DecapsKeyParts(o, d, z);
    DecryptIff(o, d, m, EncapsSeed(o, PkeKeygen(o, d).0, m));
  }

  /** A ciphertext is accepted if and only if it is the encapsulation of some
      message with quiet noise under this key, and then such an encapsulation's
      key is returned; all others yield the rejection key J(z || c). */
  lemma KemAcceptsOnlyEncapsulations(o: Oracles, d: Bytes32, z: Bytes32, c: Cipher)
    ensures var (ek, dk) := KemKeygen(o, d, z);
      var (key, rejected) := KemDecaps(o, dk, c);
      && (!rejected <==> exists m: Bytes32 :: KemEncaps(o, ek, m).1 == c && QuietNoise(o, d, m, EncapsSeed(o, ek, m)))
      && (!rejected ==> exists m: Bytes32 :: KemEncaps(o, ek, m) == (key, c))
      && (rejected ==> key == o.j(z + c))
  {
    hide PkeKeygen, PkeEncrypt, PkeDecrypt, KemKeygen, QuietNoise;
    DecapsKeyParts(o, d, z);
    var (ek, dk) := KemKeygen(o, d, z);
    var m := PkeDecrypt(PkeKeygen(o, d).1, c);
    DecryptIff(o, d, m, EncapsSeed(o, ek, m));
    assert KemEncaps(o, ek, m).1 == c ==> KemEncaps(o, ek, m) == (KemDecaps(o, dk, c).0, c);
    forall m': Bytes32 | KemEncaps(o, ek, m').1 == c && QuietNoise(o, d, m', EncapsSeed(o, ek, m'))
      ensures !KemDecaps(o, dk, c).1
    {
      KemCorrect(o, d, z, m');
    }
  }
}
