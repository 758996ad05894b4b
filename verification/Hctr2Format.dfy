/** What HCTR2 computes, byte for byte: the two derived blocks, the layout of
    the hashed string, the chaining of the hash and the counters of the stream. */
module Hctr2Format {
  import opened GfDot
  import opened Blocks
  import opened Hctr2
  import opened ModArith
  import opened PowersOfTwo
  import opened Wrappers

  // ----- bits and the hash -----

  lemma Bit0(b: Byte)
    ensures ByteBit(b, 0) <==> Value(b) % 2 == 1
  {
  }

  lemma Bit1(b: Byte)
    ensures ByteBit(b, 1) <==> Value(b) / 2 % 2 == 1
  {
  }

  lemma Bit2(b: Byte)
    ensures ByteBit(b, 2) <==> Value(b) / 4 % 2 == 1
  {
  }

  lemma Bit3(b: Byte)
    ensures ByteBit(b, 3) <==> Value(b) / 8 % 2 == 1
  {
  }

  lemma Bit4(b: Byte)
    ensures ByteBit(b, 4) <==> Value(b) / 16 % 2 == 1
  {
  }

  lemma Bit5(b: Byte)
    ensures ByteBit(b, 5) <==> Value(b) / 32 % 2 == 1
  {
  }

  lemma Bit6(b: Byte)
    ensures ByteBit(b, 6) <==> Value(b) / 64 % 2 == 1
  {
  }

  lemma Bit7(b: Byte)
    ensures ByteBit(b, 7) <==> Value(b) / 128 % 2 == 1
  {
  }

  lemma SmallPowers()
    ensures Pow2(0) == 1 && Pow2(1) == 2 && Pow2(2) == 4 && Pow2(3) == 8
    ensures Pow2(4) == 16 && Pow2(5) == 32 && Pow2(6) == 64 && Pow2(7) == 128
  {
    assert Pow2(3) == 2 * Pow2(2) && Pow2(5) == 2 * Pow2(4) && Pow2(7) == 2 * Pow2(6);
  }

  lemma BitOfByte(b: Byte, r: nat)
    requires r < 8
    ensures ByteBit(b, r) <==> Value(b) / Pow2(r) % 2 == 1
  {
    hide ByteBit, Value, Pow2;
    Bit0(b);
    Bit1(b);
    Bit2(b);
    Bit3(b);
    Bit4(b);
    Bit5(b);
    Bit6(b);
    Bit7(b);
    SmallPowers();
    assert Value(b) / 1 == Value(b);
  }

  lemma BitBelow(x: nat, r: nat)
    requires r < 8
    ensures x % 256 / Pow2(r) % 2 == x / Pow2(r) % 2
  {
    hide Pow2;
    SmallPowers();
    QuotientBelow(x, Pow2(r), Pow2(7 - r));
  }

  lemma QuotientBelow(x: nat, p: nat, h: nat)
    requires 1 <= p && 1 <= h && p * (2 * h) == 256
    ensures x % 256 / p % 2 == x / p % 2
  {
    var q, y := x / 256, x % 256;
    var c, d := y / p, y % p;
    assert x == 256 * q + y && y == p * c + d;
    var m := h * q;
    assert (2 * m + c) * p == 256 * q + p * c by {
      Associate(2, h, q);
      Associate(p, 2 * h, q);
      Distribute(2 * m, c, p);
    }
    DivModUnique(x, p, 2 * m + c, d);
    AddMultiple(c, m, 2);
  }

  /** Bit j of a little-endian number is its bit j. */
  lemma BitOfNumber(n: nat, k: nat, j: nat)
    requires j < 8 * k
    ensures ToBits(LittleEndian(n, k))[j] <==> n / Pow2(j) % 2 == 1
  {
    hide ByteBit, Value, Pow2, LittleEndian;
    var i, r := j / 8, j % 8;
    var p := Pow2(8 * i);
    LittleEndianByte(n, k, i);
    BitOfByte(LittleEndian(n, k)[i], r);
    NaturalQuotient(n, p);
    BitBelow(n / p, r);
    Pow2Add(8 * i, r);
    NestedDivision(n, p, Pow2(r));
  }

  lemma BytesOfBits(f: Bits128)
    ensures ToBits(FromBits(f)) == f
  {
    hide ByteBit, ByteFrom;
    forall j | 0 <= j < 128 ensures ToBits(FromBits(f))[j] == f[j] {
      BitsOfBuilt(f, 8 * (j / 8));
    }
  }

  lemma BitsOfBuilt(f: Bits, i: nat)
    requires i + 8 <= |f|
    ensures forall k :: 0 <= k < 8 ==> ByteBit(ByteFrom(f, i), k) == f[i + k]
  {
  }

  /** Each block is added to the hash so far, and the sum multiplied by the key. */
  lemma HashChains(hbar: Block, s: Bytes, b: Block)
    requires |s| % 16 == 0
    ensures PolyvalHash(hbar, []) == FromBits(Zero(128))
    ensures PolyvalHash(hbar, s + b) == FromBits(Dot(Xor(ToBits(PolyvalHash(hbar, s)), ToBits(b)), ToBits(hbar)))
  {
    hide ToBits, FromBits, Dot, Xor;
    var n := |s| / 16;
    AccumulatedPrefix(ToBits(hbar), s, b, n);
    BytesOfBits(Accumulated(ToBits(hbar), s, n));
    assert BlockAt(s + b, n) == b;
    assert |s + b| / 16 == n + 1;
  }

  lemma {:induction false} AccumulatedPrefix(key: Bits128, s: Bytes, t: Bytes, n: nat)
    requires 16 * n <= |s|
    ensures Accumulated(key, s + t, n) == Accumulated(key, s, n)
  {
    hide ToBits, Dot, Xor;
    if n > 0 {
      AccumulatedPrefix(key, s, t, n - 1);
      assert BlockAt(s + t, n - 1) == BlockAt(s, n - 1);
    }
  }

  /** The hashed string when the message ends with a whole block: 16 |tweak| + 2
      in sixteen bytes, the tweak with z zeros up to a whole block, the message. */
  lemma WholeLayout(tweak: Bytes, msg: Bytes, z: nat)
    requires z < 16 && (|tweak| + z) % 16 == 0 && |msg| % 16 == 0
    ensures HashInput(tweak, msg) == LittleEndian(16 * |tweak| + 2, 16) + tweak + Zeros(z) + msg
  {
    hide *;
    PadIs(tweak, z);
    var x := 16 * |tweak| + 2;
    HashedParts(tweak, msg, 0, x, msg);
    Flat(LittleEndian(x, 16), tweak, Zeros(z), msg);
  }

  /** And when it does not: one more, and the message ended by a one byte and
      y zeros. */
  lemma PartialLayout(tweak: Bytes, msg: Bytes, z: nat, y: nat)
    requires z < 16 && (|tweak| + z) % 16 == 0 && y < 16 && (|msg| + 1 + y) % 16 == 0 && |msg| % 16 != 0
    ensures HashInput(tweak, msg) == LittleEndian(16 * |tweak| + 3, 16) + tweak + Zeros(z) + (msg + [1] + Zeros(y))
  {
    hide *;
    PadIs(tweak, z);
    PadMarked(msg, y);
    MarkedParts(tweak, msg, tweak + Zeros(z), msg + [1] + Zeros(y));
    Flat(LittleEndian(16 * |tweak| + 3, 16), tweak, Zeros(z), msg + [1] + Zeros(y));
  }

  lemma HashedParts(tweak: Bytes, msg: Bytes, rem: nat, x: nat, body: Bytes)
    requires rem == if |msg| % 16 != 0 then 1 else 0
    requires x == 16 * |tweak| + 2 + rem
    requires body == if rem == 0 then msg else Pad(msg + [1])
    ensures HashInput(tweak, msg) == LittleEndian(x, 16) + Pad(tweak) + body
  {
    hide LittleEndian, Pad;
    assert x == 8 * |tweak| * 2 + 2 + rem;
  }

  lemma MarkedParts(tweak: Bytes, msg: Bytes, p: Bytes, q: Bytes)
    requires |msg| % 16 != 0 && Pad(tweak) == p && Pad(msg + [1]) == q
    ensures HashInput(tweak, msg) == LittleEndian(16 * |tweak| + 3, 16) + p + q
  {
    hide *;
    var x := 16 * |tweak| + 3;
    HashedParts(tweak, msg, 1, x, q);
  }

  lemma PadMarked(msg: Bytes, y: nat)
    requires y < 16 && (|msg| + 1 + y) % 16 == 0
    ensures Pad(msg + [1]) == msg + [1] + Zeros(y)
  {
    hide Pad, Zeros;
    var marked := msg + [1];
    assert |marked| + y == |msg| + 1 + y;
    PadIs(marked, y);
  }

  lemma Flat(a: Bytes, b: Bytes, c: Bytes, d: Bytes)
    ensures a + (b + c) + d == a + b + c + d
  {
  }

  lemma PadIs(s: Bytes, z: nat)
    requires z < 16 && (|s| + z) % 16 == 0
    ensures Pad(s) == s + Zeros(z)
  {
    assert PadLength(|s|) == z;
  }

  // ----- the mode -----

  lemma OneInSixteen()
    ensures LittleEndian(1, 16) == [1] + Zeros(15)
  {
    LittleEndianOfZero(15);
    LowOfOne();
  }

  lemma LowOfOne()
    ensures Low(1) == 1
  {
  }

  /** The hash of tweak and message under the encrypted zero block. */
  function Hashed(c: Cipher, tweak: Bytes, msg: Bytes): Block {
    hide PolyvalHash, Zeros;
    PolyvalHash(c.enc(Zeros(16)), HashInput(tweak, msg))
  }

  /** What the stream starts from: both values of the middle and the encrypted
      number one. */
  function StartOf(c: Cipher, mm: Block): Block {
    hide Zeros;
    XorBytes(XorBytes(mm, c.enc(mm)), c.enc([1] + Zeros(15)))
  }

  /** Encryption: the first block is masked with the hash of the rest and
      enciphered; the rest is added to the stream, whose blocks are counted from
      one; the first block of the result is masked with the hash of that rest. */
  lemma EncryptEquations(c: Cipher, tweak: Bytes, pt: Bytes, mm: Block, ct: Bytes)
    requires |pt| >= 16 && Encrypt(c, tweak, pt) == Some(ct)
    requires mm == XorBytes(pt[..16], Hashed(c, tweak, pt[16..]))
    ensures ct[..16] == XorBytes(c.enc(mm), Hashed(c, tweak, ct[16..]))
    ensures forall j :: 16 <= j < |pt| ==> ct[j] == XorByte(pt[j], StreamByte(c, StartOf(c, mm), j - 16))
  {
    hide PolyvalHash, HashInput, XorByte, LittleEndian, Zeros;
    OneInSixteen();
    var n, s := pt[16..], StartOf(c, mm);
    var v := XorBytes(n, Xctr(c, s, |n|));
    assert ct[16..] == v;
    forall j | 16 <= j < |pt| ensures ct[j] == XorByte(pt[j], StreamByte(c, s, j - 16)) {
      assert ct[j] == v[j - 16] && pt[j] == n[j - 16];
    }
  }

  /** Byte j of the stream from s. */
  function StreamByte(c: Cipher, s: Block, j: nat): Byte {
    c.enc(XorBytes(s, LittleEndian(1 + j / 16, 16)))[j % 16]
  }
}
