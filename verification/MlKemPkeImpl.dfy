/** K-PKE over arrays and byte buffers, as the C code runs it. */
module MlKemPkeImpl {
  import opened ByteNumbers
  import opened PowersOfTwo
  import opened MlKemField
  import opened MlKemNtt
  import opened MlKemRing
  import opened MlKemCoding
  import opened MlKemPke
  import opened MlKemImpl
  import opened MlKemPacking

  method ZeroInto(f: array<Word16>)
    requires f.Length == 256
    modifies f
    ensures f[..] == Zero() && Reduced(f[..])
  {
    for j := 0 to 256
      invariant forall p | 0 <= p < j :: f[p] == 0
    {
      f[j] := 0;
    }
  }

  /** compress_d in 32-bit words. */
  method CompressWord(x: Word16, d: nat) returns (y: Word16)
    requires x < 3329 && (d == 1 || d == 4 || d == 10)
    ensures y == Compress(x, d)
  {
    Powers();
    var p := Pow2(d) as Uint32;
    ProductBound(x, Pow2(d), 3329);
    y := (((x as Uint32) * p + 1664) / 3329 % p) as int;
  }

  /** decompress_d in 32-bit words. */
  method DecompressWord(y: Word16, d: nat) returns (x: Word16)
    requires (d == 1 || d == 4 || d == 10) && y < Pow2(d)
    ensures x == Decompress(y, d)
  {
    Powers();
    DecompressReduced(y, d);
    var p := Pow2(d) as Uint32;
    x := (((y as Uint32) * 3329 + p / 2) / p) as int;
  }

  method DecompressInto(f: array<Word16>, d: nat)
    requires d == 1 || d == 4 || d == 10
    requires f.Length == 256 && forall j | 0 <= j < 256 :: f[j] < Pow2(d)
    modifies f
    ensures f[..] == DecompressPoly(old(f[..]), d) && Reduced(f[..])
  {
    hide Decompress, Pow2;
    ghost var g: seq<nat> := f[..];
    for j := 0 to 256
      invariant forall p | 0 <= p < 256 :: f[p] == if p < j then DecompressPoly(g, d)[p] else g[p]
    {
      DecompressReduced(f[j], d);
      f[j] := DecompressWord(f[j], d);
    }
  }

  method CompressInto(f: array<Word16>, d: nat, r: array<Word16>)
    requires d == 1 || d == 4 || d == 10
    requires Reduced(f[..]) && r.Length == 256
    modifies r
    ensures r[..] == CompressPoly(old(f[..]), d)
  {
    hide Compress;
    ghost var g := ToPoly(f[..]);
    Powers();
    for j := 0 to 256
      invariant f != r ==> f[..] == g
      invariant forall p | 0 <= p < 256 :: p < j ==> r[p] == Compress(g[p], d)
      invariant forall p | 0 <= p < 256 :: p >= j ==> f[p] == g[p]
    {
      assert f[j] == g[j];
      r[j] := CompressWord(f[j], d);
    }
  }

  /** acc += a b, both in the transform domain. */
  method MulAddInto(acc: array<Word16>, a: array<Word16>, b: array<Word16>, gammas: array<Word16>, tmp: array<Word16>)
    requires tmp != a && tmp != b && tmp != gammas && tmp != acc && tmp.Length == 256 && acc != a && acc != b
    requires Bits12(a[..]) && Reduced(b[..]) && Reduced(acc[..]) && GammaTable(gammas[..])
    modifies acc, tmp
    ensures Reduced(acc[..]) && acc[..] == PolyAdd(old(acc[..]), BaseMul(old(a[..]), old(b[..])))
  {
    hide BaseMul, PolyAdd, GammaTable;
    BaseMulInto(a, b, gammas, tmp);
    AddInto(acc, tmp);
  }

  /** v' - (s u'), coefficient by coefficient. */
  method SubtractInto(v: array<Word16>, a: array<Word16>, r: array<Word16>)
    requires Reduced(v[..]) && Reduced(a[..]) && r.Length == 256 && r != v && r != a
    modifies r
    ensures Reduced(r[..]) && r[..] == PolySub(v[..], a[..])
  {
    for i := 0 to 256
      invariant forall p | 0 <= p < i :: r[p] == PolySub(v[..], a[..])[p]
    {
      var x, y := v[i] as Int32, a[i] as Int32;
      r[i] := ((x + 3329 - y) % 3329) as int;
    }
  }

  lemma {:induction false} MulAccSnoc(acc: Poly, a: seq<Raw>, b: seq<Poly>, x: Raw, y: Poly)
    requires |a| == |b|
    ensures MulAcc(acc, a + [x], b + [y]) == PolyAdd(MulAcc(acc, a, b), BaseMul(x, y))
    decreases |a|
  {
    hide PolyAdd, BaseMul;
    if a == [] {
      assert [x][1..] == [] && [y][1..] == [];
      assert a + [x] == [x] && b + [y] == [y];
    } else {
      MulAccSnoc(PolyAdd(acc, BaseMul(a[0], b[0])), a[1..], b[1..], x, y);
      assert (a + [x])[1..] == a[1..] + [x] && (b + [y])[1..] == b[1..] + [y];
    }
  }

  /** One more product in an inner product. */
  lemma MulAccNext(acc: Poly, a: seq<Raw>, b: seq<Poly>, j: nat)
    requires |a| == |b| && j < |a|
    ensures MulAcc(acc, a[..j + 1], b[..j + 1]) == PolyAdd(MulAcc(acc, a[..j], b[..j]), BaseMul(a[j], b[j]))
  {
    hide PolyAdd, BaseMul, MulAcc;
    MulAccSnoc(acc, a[..j], b[..j], a[j], b[j]);
    assert a[..j + 1] == a[..j] + [a[j]] && b[..j + 1] == b[..j] + [b[j]];
  }

  lemma MulAccNone(acc: Poly, a: seq<Raw>, b: seq<Poly>)
    ensures MulAcc(acc, a[..0], b[..0]) == acc
  {
  }

  /** Polynomial j of a packed key. */
  method LoadKey(key: array<Byte>, j: nat, f: array<Word16>)
    requires 1152 <= key.Length && j < 3 && f.Length == 256
    modifies f
    ensures Bits12(f[..]) && f[..] == UnpackKey(key[..])[j]
  {
    hide ByteDecode, Pow2;
    Powers();
    assert key[..][384 * j..384 * j + 384] == key[384 * j..384 * j + 384];
    DecodeFrom(key, 384 * j, 12, f);
  }

  /** Entry j of the rounded u, transformed. */
  method LoadU(c: array<Byte>, j: nat, zetas: array<Word16>, f: array<Word16>)
    requires c.Length == 1088 && j < 3 && f.Length == 256 && f != zetas && RootTable(zetas[..])
    modifies f
    ensures Reduced(f[..]) && f[..] == Ntt(UnpackU(c[..])[j])
  {
    hide ByteDecode, Pow2, DecompressPoly, Ntt;
    assert c[..][320 * j..320 * j + 320] == c[320 * j..320 * j + 320];
    DecodeFrom(c, 320 * j, 10, f);
    DecompressInto(f, 10);
    NttInPlace(f, zetas);
  }

  method LoadV(c: array<Byte>, f: array<Word16>)
    requires c.Length == 1088 && f.Length == 256
    modifies f
    ensures Reduced(f[..]) && f[..] == UnpackV(c[..])
  {
    hide ByteDecode, Pow2, DecompressPoly;
    assert c[..][960..] == c[960..1088];
    DecodeFrom(c, 960, 4, f);
    DecompressInto(f, 4);
  }

  method PkeDecryptInto(dkp: array<Byte>, c: array<Byte>, zetas: array<Word16>, gammas: array<Word16>, m: array<Byte>)
    requires dkp.Length == 1152 && c.Length == 1088 && m.Length == 32
    requires RootTable(zetas[..]) && GammaTable(gammas[..])
    modifies m
    ensures m[..] == PkeDecrypt(old(dkp[..]), old(c[..]))
  {
    hide RootTable, GammaTable, Reduced, Bits12, MulAcc, Intt, Ntt, PolyAdd, PolySub, BaseMul, CompressPoly, ByteEncode, UnpackKey, UnpackU, UnpackV, Zero;
    ghost var key: seq<Raw>, us: seq<Poly> := UnpackKey(dkp[..]), NttVec(UnpackU(c[..]));
    var sh, up, acc, tmp := new Word16[256], new Word16[256], new Word16[256], new Word16[256];
    ZeroInto(acc);
    MulAccNone(Zero(), key, us);
    for j := 0 to 3
      invariant Reduced(acc[..]) && acc[..] == MulAcc(Zero(), key[..j], us[..j])
      invariant RootTable(zetas[..]) && GammaTable(gammas[..])
    {
      LoadU(c, j, zetas, up);
      LoadKey(dkp, j, sh);
      MulAccNext(Zero(), key, us, j);
      MulAddInto(acc, sh, up, gammas, tmp);
    }
    assert key[..3] == key && us[..3] == us;
    InttInPlace(acc, zetas);
    LoadV(c, up);
    SubtractInto(up, acc, tmp);
    assert tmp[..] == Decoded(dkp[..], c[..]);
    CompressInto(tmp, 1, tmp);
    EncodeInto(tmp, 1, m, 0);
  }

  // ----- encryption -----

  /** One noise polynomial: PRF output, then the centred binomial sampler. */
  method SampleNoise(o: Oracles, seed: Bytes, n: Byte) returns (f: array<Word16>)
    ensures fresh(f) && Reduced(f[..]) && f[..] == Cbd2(o.prf(seed, n))
  {
    hide BitOf, Stream, Cbd2;
    var buf := o.prf(seed, n);
    f := new Word16[256];
    for i := 0 to 256
      invariant forall p | 0 <= p < i :: f[p] == Cbd2(buf)[p]
    {
      CbdBits(buf, i);
      var x: Int32 := BitOf(buf[(4 * i) / 8], (4 * i) % 8) as Int32 + BitOf(buf[(4 * i + 1) / 8], (4 * i + 1) % 8) as Int32;
      var y: Int32 := BitOf(buf[(4 * i + 2) / 8], (4 * i + 2) % 8) as Int32 + BitOf(buf[(4 * i + 3) / 8], (4 * i + 3) % 8) as Int32;
      f[i] := ((x - y + 3329) % 3329) as int;
    }
  }

  lemma CbdBits(buf: Bytes, i: nat)
    requires |buf| == 128 && i < 256
    ensures (4 * i + 3) / 8 < 128
    ensures Cbd2(buf)[i] == (BitOf(buf[(4 * i) / 8], (4 * i) % 8) + BitOf(buf[(4 * i + 1) / 8], (4 * i + 1) % 8)
      - (BitOf(buf[(4 * i + 2) / 8], (4 * i + 2) % 8) + BitOf(buf[(4 * i + 3) / 8], (4 * i + 3) % 8)) + Q) % Q
  {
    hide BitOf, Stream;
    StreamByte(buf, 4 * i);
    StreamByte(buf, 4 * i + 1);
    StreamByte(buf, 4 * i + 2);
    StreamByte(buf, 4 * i + 3);
  }

  /** Three arrays holding the polynomials of v. */
  predicate Holds(a: seq<array<Word16>>, v: Vec)
    reads a
  {
    |a| == 3 && a[0] != a[1] && a[0] != a[2] && a[1] != a[2]
    && a[0][..] == v[0] && a[1][..] == v[1] && a[2][..] == v[2]
  }

  method SampleNoiseVec(o: Oracles, seed: Bytes, n: nat) returns (a: seq<array<Word16>>)
    requires n <= 3
    ensures |a| == 3 && fresh(a[0]) && fresh(a[1]) && fresh(a[2])
    ensures Holds(a, NoiseVec(o, seed, n))
  {
    hide Cbd2, Reduced;
    var f0 := SampleNoise(o, seed, n);
    var f1 := SampleNoise(o, seed, n + 1);
    var f2 := SampleNoise(o, seed, n + 2);
    a := [f0, f1, f2];
  }

  method NttAll(a: seq<array<Word16>>, zetas: array<Word16>, ghost v: Vec)
    requires Holds(a, v) && zetas !in a && RootTable(zetas[..])
    modifies a
    ensures Holds(a, NttVec(v))
  {
    hide Ntt, RootTable;
    NttInPlace(a[0], zetas);
    NttInPlace(a[1], zetas);
    NttInPlace(a[2], zetas);
  }

  method CopyPoly(p: Poly, f: array<Word16>)
    requires f.Length == 256
    modifies f
    ensures f[..] == p && Reduced(f[..]) && Bits12(f[..])
  {
    for j := 0 to 256
      invariant forall k | 0 <= k < j :: f[k] == p[k]
    {
      f[j] := p[j];
    }
  }

  /** Column i of the matrix times y, accumulated in the transform domain. */
  method ColumnInto(o: Oracles, rho: Bytes, i: nat, y: seq<array<Word16>>, ghost v: Vec, gammas: array<Word16>,
      acc: array<Word16>, a: array<Word16>, tmp: array<Word16>)
    requires i < 3 && Holds(y, v) && GammaTable(gammas[..])
    requires acc.Length == 256 && a.Length == 256 && tmp.Length == 256
    requires acc != a && acc != tmp && a != tmp && acc !in y && a !in y && tmp !in y && gammas !in [acc, a, tmp]
    modifies acc, a, tmp
    ensures Reduced(acc[..]) && acc[..] == MulAcc(Zero(), MatrixColumn(o, rho, i), v)
  {
    hide MulAcc, PolyAdd, BaseMul, GammaTable, Reduced, Bits12, Zero;
    ghost var column: seq<Raw> := MatrixColumn(o, rho, i);
    ZeroInto(acc);
    MulAccNone(Zero(), column, v);
    for j := 0 to 3
      invariant Reduced(acc[..]) && acc[..] == MulAcc(Zero(), column[..j], v[..j])
      invariant Holds(y, v) && GammaTable(gammas[..])
    {
      CopyPoly(o.sampleNtt(rho, i, j), a);
      MulAccNext(Zero(), column, v, j);
      VecReduced(y, v, j);
      MulAddInto(acc, a, y[j], gammas, tmp);
    }
    assert column[..3] == column && v[..3] == v;
  }

  lemma VecReduced(y: seq<array<Word16>>, v: Vec, j: nat)
    requires Holds(y, v) && j < 3
    ensures Reduced(y[j][..]) && y[j][..] == v[j]
  {
  }

  /** u[i]: inverse transform of the column product, plus noise. */
  method UInto(o: Oracles, rho: Bytes, i: nat, yh: seq<array<Word16>>, ghost y: Vec, e1: seq<array<Word16>>, ghost e: Vec,
      zetas: array<Word16>, gammas: array<Word16>, acc: array<Word16>, a: array<Word16>, tmp: array<Word16>)
    requires i < 3 && Holds(yh, NttVec(y)) && Holds(e1, e) && RootTable(zetas[..]) && GammaTable(gammas[..])
    requires acc.Length == 256 && a.Length == 256 && tmp.Length == 256 && acc != a && acc != tmp && a != tmp
    requires acc !in yh + e1 && a !in yh + e1 && tmp !in yh + e1 && gammas !in [acc, a, tmp] && zetas !in [acc, a, tmp]
    modifies acc, a, tmp
    ensures Reduced(acc[..]) && acc[..] == CipherU(o, rho, y, e)[i]
  {
    hide MulAcc, PolyAdd, Intt, NttVec, GammaTable, RootTable, Reduced, Zero, MatrixColumn;
    ColumnInto(o, rho, i, yh, NttVec(y), gammas, acc, a, tmp);
    InttInPlace(acc, zetas);
    VecReduced(e1, e, i);
    AddInto(acc, e1[i]);
  }

  /** v: inverse transform of t y, plus noise, plus the message. */
  method VInto(ek: array<Byte>, m: array<Byte>, yh: seq<array<Word16>>, ghost y: Vec, e2: array<Word16>,
      zetas: array<Word16>, gammas: array<Word16>, acc: array<Word16>, a: array<Word16>, tmp: array<Word16>)
    requires ek.Length == 1184 && m.Length == 32
    requires Holds(yh, NttVec(y)) && Reduced(e2[..]) && RootTable(zetas[..]) && GammaTable(gammas[..])
    requires acc.Length == 256 && a.Length == 256 && tmp.Length == 256 && acc != a && acc != tmp && a != tmp
    requires acc !in yh + [e2] && a !in yh + [e2] && tmp !in yh + [e2] && gammas !in [acc, a, tmp] && zetas !in [acc, a, tmp]
    modifies acc, a, tmp
    ensures Reduced(acc[..]) && acc[..] == CipherV(UnpackKey(ek[..]), y, e2[..], m[..])
  {
    hide MulAcc, PolyAdd, BaseMul, Intt, NttVec, GammaTable, RootTable, Reduced, Bits12, Zero, UnpackKey, ByteDecode, DecompressPoly;
    ghost var t: seq<Raw>, v: Vec := UnpackKey(ek[..]), NttVec(y);
    ZeroInto(acc);
    MulAccNone(Zero(), t, v);
    for j := 0 to 3
      invariant Reduced(acc[..]) && acc[..] == MulAcc(Zero(), t[..j], v[..j])
      invariant Holds(yh, v) && GammaTable(gammas[..])
    {
      LoadKey(ek, j, a);
      MulAccNext(Zero(), t, v, j);
      VecReduced(yh, v, j);
      MulAddInto(acc, a, yh[j], gammas, tmp);
    }
    assert t[..3] == t && v[..3] == v;
    InttInPlace(acc, zetas);
    AddInto(acc, e2);
    MessageInto(m, tmp);
    AddInto(acc, tmp);
  }

  method MessageInto(m: array<Byte>, f: array<Word16>)
    requires m.Length == 32 && f.Length == 256
    modifies f
    ensures Reduced(f[..]) && f[..] == MessagePoly(m[..])
  {
    hide ByteDecode, DecompressPoly, Pow2;
    assert m[..] == m[0..32];
    DecodeFrom(m, 0, 1, f);
    DecompressInto(f, 1);
  }

  /** Compresses and packs one polynomial into the ciphertext at `off`. */
  method Emit(f: array<Word16>, d: nat, tmp: array<Word16>, c: array<Byte>, off: nat)
    requires Reduced(f[..]) && (d == 4 || d == 10) && tmp.Length == 256 && tmp != f
    requires off + 32 * d <= c.Length
    modifies c, tmp
    ensures c[..off] == old(c[..off])
    ensures c[off..off + 32 * d] == ByteEncode(CompressPoly(old(f[..]), d), d)
  {
    hide CompressPoly, ByteEncode, Reduced;
    CompressInto(f, d, tmp);
    label written:
    EncodeInto(tmp, d, c, off);
    assert c[..off] == c[..][..off] && c[off..off + 32 * d] == c[..][off..off + 32 * d];
  }

  /** The first n of the packed entries of u. */
  function PackedU(u: Vec, n: nat): Bytes
    requires n <= 3
  {
    if n == 0 then [] else PackedU(u, n - 1) + ByteEncode(CompressPoly(u[n - 1], 10), 10)
  }

  lemma PackCipherParts(u: Vec, v: Poly)
    ensures PackCipher(u, v) == PackedU(u, 3) + ByteEncode(CompressPoly(v, 4), 4)
  {
    hide ByteEncode, CompressPoly;
    assert PackedU(u, 1) == [] + ByteEncode(CompressPoly(u[0], 10), 10);
    assert PackedU(u, 2) == PackedU(u, 1) + ByteEncode(CompressPoly(u[1], 10), 10);
  }

  /** The three entries of u, computed and packed one after the other. */
  method EmitU(o: Oracles, rho: Bytes, yh: seq<array<Word16>>, ghost y: Vec, e1: seq<array<Word16>>, ghost e: Vec,
      zetas: array<Word16>, gammas: array<Word16>, acc: array<Word16>, a: array<Word16>, tmp: array<Word16>, c: array<Byte>)
    requires Holds(yh, NttVec(y)) && Holds(e1, e) && RootTable(zetas[..]) && GammaTable(gammas[..])
    requires acc.Length == 256 && a.Length == 256 && tmp.Length == 256 && acc != a && acc != tmp && a != tmp
    requires acc !in yh + e1 && a !in yh + e1 && tmp !in yh + e1 && gammas !in [acc, a, tmp] && zetas !in [acc, a, tmp]
    requires c.Length == 1088
    modifies acc, a, tmp, c
    ensures c[..960] == PackedU(CipherU(o, rho, y, e), 3)
  {
    hide CipherU, GammaTable, RootTable, Reduced, CompressPoly, ByteEncode, NttVec;
    ghost var u := CipherU(o, rho, y, e);
    for i := 0 to 3
      invariant c[..320 * i] == PackedU(u, i)
      invariant Holds(yh, NttVec(y)) && Holds(e1, e) && RootTable(zetas[..]) && GammaTable(gammas[..])
    {
      UInto(o, rho, i, yh, y, e1, e, zetas, gammas, acc, a, tmp);
      Emit(acc, 10, tmp, c, 320 * i);
      assert c[..320 * i + 320] == c[..320 * i] + c[320 * i..320 * i + 320];
    }
  }

  /** v, computed and packed behind u. */
  method EmitV(ek: array<Byte>, m: array<Byte>, yh: seq<array<Word16>>, ghost y: Vec, e2: array<Word16>,
      zetas: array<Word16>, gammas: array<Word16>, acc: array<Word16>, a: array<Word16>, tmp: array<Word16>, c: array<Byte>)
    requires ek.Length == 1184 && m.Length == 32 && c.Length == 1088 && c != ek && c != m
    requires Holds(yh, NttVec(y)) && Reduced(e2[..]) && RootTable(zetas[..]) && GammaTable(gammas[..])
    requires acc.Length == 256 && a.Length == 256 && tmp.Length == 256 && acc != a && acc != tmp && a != tmp
    requires acc !in yh + [e2] && a !in yh + [e2] && tmp !in yh + [e2] && gammas !in [acc, a, tmp] && zetas !in [acc, a, tmp]
    modifies acc, a, tmp, c
    ensures c[..960] == old(c[..960])
    ensures c[960..] == ByteEncode(CompressPoly(CipherV(UnpackKey(ek[..]), y, e2[..], m[..]), 4), 4)
  {
    hide CipherV, GammaTable, RootTable, Reduced, UnpackKey, CompressPoly, ByteEncode, NttVec;
    VInto(ek, m, yh, y, e2, zetas, gammas, acc, a, tmp);
    Emit(acc, 4, tmp, c, 960);
    assert c[960..] == c[960..1088];
  }

  lemma PkeEncryptParts(o: Oracles, ek: EncKey, m: Bytes32, r: Bytes32)
    ensures var y, e1, e2 := NoiseVec(o, r, 0), NoiseVec(o, r, 3), Cbd2(o.prf(r, 6));
      PkeEncrypt(o, ek, m, r) == PackedU(CipherU(o, ek[1152..], y, e1), 3)
        + ByteEncode(CompressPoly(CipherV(UnpackKey(ek), y, e2, m), 4), 4)
  {
    hide NoiseVec, Cbd2, PackedU, CipherU, CipherV, ByteEncode, CompressPoly, UnpackKey, PackCipher;
    var y, e1, e2 := NoiseVec(o, r, 0), NoiseVec(o, r, 3), Cbd2(o.prf(r, 6));
    PackCipherParts(CipherU(o, ek[1152..], y, e1), CipherV(UnpackKey(ek), y, e2, m));
  }

  method PkeEncryptInto(o: Oracles, ek: array<Byte>, m: array<Byte>, r: Bytes32, zetas: array<Word16>, gammas: array<Word16>, c: array<Byte>)
    requires ek.Length == 1184 && m.Length == 32 && c.Length == 1088 && c != ek && c != m
    requires RootTable(zetas[..]) && GammaTable(gammas[..])
    modifies c
    ensures c[..] == PkeEncrypt(o, ek[..], m[..], r)
  {
    hide *;
    var y := SampleNoiseVec(o, r, 0);
    var e1 := SampleNoiseVec(o, r, 3);
    var e2 := SampleNoise(o, r, 6);
    NttAll(y, zetas, NoiseVec(o, r, 0));
    EncryptWith(o, ek, m, r, y, e1, e2, zetas, gammas, c);
  }

  /** Encryption once the noise is sampled and y is transformed. */
  method EncryptWith(o: Oracles, ek: array<Byte>, m: array<Byte>, ghost r: Bytes32,
      yh: seq<array<Word16>>, e1: seq<array<Word16>>, e2: array<Word16>, zetas: array<Word16>, gammas: array<Word16>, c: array<Byte>)
    requires ek.Length == 1184 && m.Length == 32 && c.Length == 1088 && c != ek && c != m
    requires RootTable(zetas[..]) && GammaTable(gammas[..])
    requires Holds(yh, NttVec(NoiseVec(o, r, 0))) && Holds(e1, NoiseVec(o, r, 3))
    requires Reduced(e2[..]) && e2[..] == Cbd2(o.prf(r, 6))
    modifies c
    ensures c[..] == PkeEncrypt(o, ek[..], m[..], r)
  {
    hide *;
    ghost var y, e := NoiseVec(o, r, 0), NoiseVec(o, r, 3);
    var acc, a, tmp := new Word16[256], new Word16[256], new Word16[256];
    assert ek[1152..] == ek[..][1152..];
    EmitU(o, ek[1152..], yh, y, e1, e, zetas, gammas, acc, a, tmp, c);
    EmitV(ek, m, yh, y, e2, zetas, gammas, acc, a, tmp, c);
    PkeEncryptParts(o, ek[..], m[..], r);
    assert c[..] == c[..960] + c[960..];
  }

  // ----- key generation -----

  /** Row i of the matrix times s, added to a transformed error. */
  method RowInto(o: Oracles, rho: Bytes, i: nat, s: seq<array<Word16>>, ghost v: Vec, e: array<Word16>,
      gammas: array<Word16>, acc: array<Word16>, a: array<Word16>, tmp: array<Word16>)
    requires i < 3 && Holds(s, v) && Reduced(e[..]) && GammaTable(gammas[..])
    requires acc.Length == 256 && a.Length == 256 && tmp.Length == 256
    requires acc != a && acc != tmp && a != tmp && acc !in s + [e] && a !in s + [e] && tmp !in s + [e]
    requires gammas !in [acc, a, tmp]
    modifies acc, a, tmp
    ensures Reduced(acc[..]) && acc[..] == MulAcc(e[..], MatrixRow(o, rho, i), v)
  {
    hide MulAcc, PolyAdd, BaseMul, GammaTable, Reduced, Bits12;
    ghost var row: seq<Raw>, start := MatrixRow(o, rho, i), ToPoly(e[..]);
    CopyArray(e, acc);
    MulAccNone(start, row, v);
    for j := 0 to 3
      invariant Reduced(acc[..]) && acc[..] == MulAcc(start, row[..j], v[..j])
      invariant Holds(s, v) && GammaTable(gammas[..]) && e[..] == start
    {
      CopyPoly(o.sampleNtt(rho, j, i), a);
      MulAccNext(start, row, v, j);
      VecReduced(s, v, j);
      MulAddInto(acc, a, s[j], gammas, tmp);
    }
    assert row[..3] == row && v[..3] == v;
  }

  method CopyArray(src: array<Word16>, dst: array<Word16>)
    requires Reduced(src[..]) && dst.Length == 256 && src != dst
    modifies dst
    ensures dst[..] == src[..] && Reduced(dst[..])
  {
    for j := 0 to 256
      invariant forall k | 0 <= k < j :: dst[k] == src[k]
    {
      dst[j] := src[j];
    }
  }

  /** The first n packed polynomials of a key. */
  function PackedKey(v: Vec, n: nat): Bytes
    requires n <= 3
  {
    if n == 0 then [] else PackedKey(v, n - 1) + ByteEncode(v[n - 1], 12)
  }

  lemma PackKeyParts(v: Vec)
    ensures PackKey(v) == PackedKey(v, 3)
  {
    hide ByteEncode;
    assert PackedKey(v, 1) == [] + ByteEncode(v[0], 12);
    assert PackedKey(v, 2) == PackedKey(v, 1) + ByteEncode(v[1], 12);
  }

  /** Packs one more polynomial behind those already written. */
  method EmitKey(f: array<Word16>, i: nat, key: array<Byte>, ghost v: Vec)
    requires i < 3 && f.Length == 256 && f[..] == v[i] && 1152 <= key.Length
    requires key[..384 * i] == PackedKey(v, i)
    modifies key
    ensures key[..384 * i + 384] == PackedKey(v, i + 1) && key[384 * i + 384..] == old(key[384 * i + 384..])
  {
    hide ByteEncode, PackedKey;
    label before:
    EncodeInto(f, 12, key, 384 * i);
    ghost var out, n := key[..], 384 * i;
    assert out[..n] == old@before(key[..n]) && out[n..n + 384] == ByteEncode(v[i], 12);
    assert out[..n + 384] == out[..n] + out[n..n + 384];
    PackedKeyNext(v, i);
    assert key[n + 384..] == out[n + 384..] == old@before(key[n + 384..]);
  }

  lemma PackedKeyNext(v: Vec, n: nat)
    requires n < 3
    ensures PackedKey(v, n + 1) == PackedKey(v, n) + ByteEncode(v[n], 12)
  {
  }

  /** The public polynomials, computed and packed one after the other. */
  method EmitPublic(o: Oracles, rho: Bytes, sh: seq<array<Word16>>, ghost s: Vec, eh: seq<array<Word16>>, ghost e: Vec,
      gammas: array<Word16>, ek: array<Byte>)
    requires Holds(sh, NttVec(s)) && Holds(eh, NttVec(e)) && GammaTable(gammas[..]) && ek.Length == 1184
    modifies ek
    ensures ek[..1152] == PackKey(Public(o, rho, s, e))
  {
    hide Public, GammaTable, Reduced, ByteEncode, NttVec, PackKey, MulAcc, MatrixRow;
    var acc, a, tmp := new Word16[256], new Word16[256], new Word16[256];
    ghost var t := Public(o, rho, s, e);
    PackedNone(t);
    for i := 0 to 3
      invariant ek[..384 * i] == PackedKey(t, i)
      invariant Holds(sh, NttVec(s)) && Holds(eh, NttVec(e)) && GammaTable(gammas[..])
    {
      VecReduced(eh, NttVec(e), i);
      RowInto(o, rho, i, sh, NttVec(s), eh[i], gammas, acc, a, tmp);
      PublicAt(o, rho, s, e, i);
      EmitKey(acc, i, ek, t);
    }
    PackKeyParts(t);
  }

  lemma PackedNone(v: Vec)
    ensures PackedKey(v, 0) == []
  {
  }

  lemma PublicAt(o: Oracles, rho: Bytes, s: Vec, e: Vec, i: nat)
    requires i < 3
    ensures Public(o, rho, s, e)[i] == MulAcc(NttVec(e)[i], MatrixRow(o, rho, i), NttVec(s))
  {
    hide MulAcc, MatrixRow, Ntt;
  }

  method EmitSecret(sh: seq<array<Word16>>, ghost v: Vec, dkp: array<Byte>)
    requires Holds(sh, v) && dkp.Length == 1152
    modifies dkp
    ensures dkp[..] == PackKey(v)
  {
    hide ByteEncode, PackKey;
    PackedNone(v);
    for i := 0 to 3
      invariant dkp[..384 * i] == PackedKey(v, i) && Holds(sh, v)
    {
      EmitKey(sh[i], i, dkp, v);
    }
    PackKeyParts(v);
    assert dkp[..1152] == dkp[..];
  }

  method CopyBytes(src: Bytes, dst: array<Byte>, off: nat)
    requires off + |src| <= dst.Length
    modifies dst
    ensures dst[off..off + |src|] == src && dst[..off] == old(dst[..off])
  {
    for k := 0 to |src|
      invariant dst[off..off + k] == src[..k] && dst[..off] == old(dst[..off])
    {
      dst[off + k] := src[k];
    }
  }

  /** pke_keygen: both keys are those of the functional form. */
  method PkeKeygenInto(o: Oracles, d: Bytes32, zetas: array<Word16>, gammas: array<Word16>, ek: array<Byte>, dkp: array<Byte>)
    requires ek.Length == 1184 && dkp.Length == 1152 && ek != dkp
    requires RootTable(zetas[..]) && GammaTable(gammas[..])
    modifies ek, dkp
    ensures (ek[..], dkp[..]) == PkeKeygen(o, d)
  {
    hide *;
    var gh := o.g(d + [3]);
    var rho, sigma := gh[..32], gh[32..];
    KeygenParts(o, d);
    ghost var s, e := NoiseVec(o, sigma, 0), NoiseVec(o, sigma, 3);
    var sh := SampleNoiseVec(o, sigma, 0);
    var eh := SampleNoiseVec(o, sigma, 3);
    NttAll(sh, zetas, s);
    NttAll(eh, zetas, e);
    EmitPublic(o, rho, sh, s, eh, e, gammas, ek);
    CopyBytes(rho, ek, 1152);
    assert ek[..] == ek[..1152] + ek[1152..1152 + |rho|];
    EmitSecret(sh, NttVec(s), dkp);
  }

  lemma KeygenParts(o: Oracles, d: Bytes32)
    ensures var gh := o.g(d + [3]); var s, e := NoiseVec(o, gh[32..], 0), NoiseVec(o, gh[32..], 3);
            PkeKeygen(o, d) == (PackKey(Public(o, gh[..32], s, e)) + gh[..32], PackKey(NttVec(s)))
  {
    hide NoiseVec, PackKey, Public, NttVec;
  }
}
