/** AES-256 byte by byte, as the tables and figures of FIPS 197 give it: the
    S-box, the key schedule, one round and the last round. */
module AesFormat {
  import opened Blocks
  import opened Gf256
  import opened Aes
  import opened AesImpl

  // ----- the field and the S-box -----

  /** Multiplication by x, section 4.2.1; with linearity, associativity and the
      unit this fixes every product. */
  lemma TimesX(a: Byte)
    ensures Mul(a, 2) == if a >= 0x80 then (a << 1) ^ 0x1b else a << 1
  {
    hide Mul;
    TimesTwo(a);
    DoubleIs(a);
  }

  lemma DoubleIs(a: Byte)
    ensures Double(a) == if a >= 0x80 then (a << 1) ^ 0x1b else a << 1
  {
  }

  /** Only one element makes a product one. */
  lemma OnlyInverse(x: Byte, v: Byte)
    requires Mul(x, v) == 1
    ensures v == Inv(x)
  {
    hide Mul, Pow, Inv;
    if x == 0 {
      ZeroTimes(v);
    } else {
      InvInvolution(x);
      ZeroInv();
      InverseProduct(Inv(x));
      MulAssociates(Inv(x), x, v);
      MulOne(v);
      MulOne(Inv(x));
    }
  }

  function Bit(b: Byte, i: nat): bool
    requires i < 8
  {
    (b >> i) & 1 == 1
  }

  /** The sum of six bits. */
  function Sum(a: bool, b: bool, c: bool, d: bool, e: bool, f: bool): bool {
    a != (b != (c != (d != (e != f))))
  }

  /** Equation (5.1): the bits of the S-box's value, from the inverse v of x and
      the bits of 63 in hexadecimal. */
  lemma SboxBits(x: Byte, v: Byte)
    requires Mul(x, v) == 1 || x == v == 0
    ensures Bit(Sbox(x), 0) == Sum(Bit(v, 0), Bit(v, 4), Bit(v, 5), Bit(v, 6), Bit(v, 7), true)
    ensures Bit(Sbox(x), 1) == Sum(Bit(v, 1), Bit(v, 5), Bit(v, 6), Bit(v, 7), Bit(v, 0), true)
    ensures Bit(Sbox(x), 2) == Sum(Bit(v, 2), Bit(v, 6), Bit(v, 7), Bit(v, 0), Bit(v, 1), false)
    ensures Bit(Sbox(x), 3) == Sum(Bit(v, 3), Bit(v, 7), Bit(v, 0), Bit(v, 1), Bit(v, 2), false)
    ensures Bit(Sbox(x), 4) == Sum(Bit(v, 4), Bit(v, 0), Bit(v, 1), Bit(v, 2), Bit(v, 3), false)
    ensures Bit(Sbox(x), 5) == Sum(Bit(v, 5), Bit(v, 1), Bit(v, 2), Bit(v, 3), Bit(v, 4), true)
    ensures Bit(Sbox(x), 6) == Sum(Bit(v, 6), Bit(v, 2), Bit(v, 3), Bit(v, 4), Bit(v, 5), true)
    ensures Bit(Sbox(x), 7) == Sum(Bit(v, 7), Bit(v, 3), Bit(v, 4), Bit(v, 5), Bit(v, 6), false)
  {
    hide Mul, Inv, Affine, Bit, Sum;
    if x == 0 {
      ZeroTimes(v);
      ZeroInv();
    } else {
      OnlyInverse(x, v);
    }
    LowAffineBits(v);
    HighAffineBits(v);
  }

  lemma LowAffineBits(v: Byte)
    ensures Bit(Affine(v), 0) == Sum(Bit(v, 0), Bit(v, 4), Bit(v, 5), Bit(v, 6), Bit(v, 7), true)
    ensures Bit(Affine(v), 1) == Sum(Bit(v, 1), Bit(v, 5), Bit(v, 6), Bit(v, 7), Bit(v, 0), true)
    ensures Bit(Affine(v), 2) == Sum(Bit(v, 2), Bit(v, 6), Bit(v, 7), Bit(v, 0), Bit(v, 1), false)
    ensures Bit(Affine(v), 3) == Sum(Bit(v, 3), Bit(v, 7), Bit(v, 0), Bit(v, 1), Bit(v, 2), false)
  {
  }

  lemma HighAffineBits(v: Byte)
    ensures Bit(Affine(v), 4) == Sum(Bit(v, 4), Bit(v, 0), Bit(v, 1), Bit(v, 2), Bit(v, 3), false)
    ensures Bit(Affine(v), 5) == Sum(Bit(v, 5), Bit(v, 1), Bit(v, 2), Bit(v, 3), Bit(v, 4), true)
    ensures Bit(Affine(v), 6) == Sum(Bit(v, 6), Bit(v, 2), Bit(v, 3), Bit(v, 4), Bit(v, 5), true)
    ensures Bit(Affine(v), 7) == Sum(Bit(v, 7), Bit(v, 3), Bit(v, 4), Bit(v, 5), Bit(v, 6), false)
  {
  }

  /** The example of section 5.1.1. */
  lemma SboxExample()
    ensures Sbox(0x53) == 0xed && Sbox(0) == 0x63
  {
    hide Mul, Inv, Affine;
    Product53();
    OnlyInverse(0x53, 0xca);
    ZeroInv();
    AffineExample();
  }

  lemma Product53()
    ensures Mul(0x53, 0xca) == 1
  {
  }

  lemma AffineExample()
    ensures Affine(0xca) == 0xed && Affine(0) == 0x63
  {
  }

  // ----- the key schedule -----

  /** Byte j of the expanded key. */
  function ExpandedByte(key: Key, j: nat): Byte
    requires j < 240
  {
    RoundKeysOf(key)[j / 16][j % 16]
  }

  lemma ByteOfWord(key: Key, j: nat)
    requires j < 240
    ensures ExpandedByte(key, j) == KeyWord(key, j / 4)[j % 4]
  {
    hide KeyWord, Joined;
    var r, i := j / 16, j % 16;
    RoundKeyIs(key, r);
    ByteOfJoined(KeyWord(key, 4 * r), KeyWord(key, 4 * r + 1), KeyWord(key, 4 * r + 2), KeyWord(key, 4 * r + 3), i);
    assert j / 4 == 4 * r + i / 4 && j % 4 == i % 4;
  }

  lemma ByteOfJoined(a: Word, b: Word, c: Word, d: Word, i: nat)
    requires i < 16
    ensures Joined(a, b, c, d)[i] == [a, b, c, d][i / 4][i % 4]
  {
  }

  /** Section 5.2 on bytes, for eight words of key. */
  lemma ExpandedBytes(key: Key, j: nat)
    requires j < 240
    ensures j < 32 ==> ExpandedByte(key, j) == key[j]
    ensures j >= 32 && j % 32 == 0 ==>
      ExpandedByte(key, j)
        == XorByte(ExpandedByte(key, j - 32), XorByte(Sbox(ExpandedByte(key, j - 3)), [1, 2, 4, 8, 16, 32, 64][j / 32 - 1]))
    ensures j >= 32 && (j % 32 == 1 || j % 32 == 2) ==>
      ExpandedByte(key, j) == XorByte(ExpandedByte(key, j - 32), Sbox(ExpandedByte(key, j - 3)))
    ensures j >= 32 && j % 32 == 3 ==>
      ExpandedByte(key, j) == XorByte(ExpandedByte(key, j - 32), Sbox(ExpandedByte(key, j - 7)))
    ensures j >= 32 && 16 <= j % 32 < 20 ==>
      ExpandedByte(key, j) == XorByte(ExpandedByte(key, j - 32), Sbox(ExpandedByte(key, j - 4)))
    ensures j >= 32 && (4 <= j % 32 < 16 || 20 <= j % 32) ==>
      ExpandedByte(key, j) == XorByte(ExpandedByte(key, j - 32), ExpandedByte(key, j - 4))
  {
    hide Sbox, ExpandedByte, XorByte;
    if j < 32 {
      FirstBytes(key, j);
    } else {
      WordOfByte(j);
      NextBytes(key, j / 4, j % 4);
    }
  }

  /** Byte j lies in word j / 4, and the words go round by eights. */
  lemma WordOfByte(j: nat)
    ensures j == 4 * (j / 4) + j % 4 && j % 32 == 4 * (j / 4 % 8) + j % 4 && j / 4 / 8 == j / 32
    ensures 0 <= j % 4 < 4 && 0 <= j / 4 % 8 < 8
  {
  }

  lemma FirstBytes(key: Key, j: nat)
    requires j < 32
    ensures ExpandedByte(key, j) == key[j]
  {
    hide KeyWord, ExpandedByte;
    ByteOfWord(key, j);
    FirstWord(key, j / 4);
    assert j == 4 * (j / 4) + j % 4;
  }

  /** Byte b of word i. */
  lemma NextBytes(key: Key, i: nat, b: nat)
    requires 8 <= i < 60 && b < 4
    ensures ExpandedByte(key, 4 * i + b)
      == XorByte(ExpandedByte(key, 4 * i + b - 32),
                 if i % 8 == 0 then (if b == 0 then XorByte(Sbox(ExpandedByte(key, 4 * i - 3)), [1, 2, 4, 8, 16, 32, 64][i / 8 - 1])
                                     else Sbox(ExpandedByte(key, 4 * i - 4 + (b + 1) % 4)))
                 else if i % 8 == 4 then Sbox(ExpandedByte(key, 4 * i + b - 4)) else ExpandedByte(key, 4 * i + b - 4))
  {
    hide Sbox, KeyWord, ExpandedByte, XorByte, Scrambled;
    WordByteIs(key, i, b);
    WordByteIs(key, i - 8, b);
    WordByteIs(key, i - 1, 1);
    WordByteIs(key, i - 1, (b + 1) % 4);
    WordByteIs(key, i - 1, b);
    NextWord(key, i);
    ScrambledByte(KeyWord(key, i - 1), i, b);
  }

  lemma WordByteIs(key: Key, i: nat, b: nat)
    requires i < 60 && b < 4
    ensures ExpandedByte(key, 4 * i + b) == KeyWord(key, i)[b]
  {
    hide KeyWord, ExpandedByte;
    ByteOfWord(key, 4 * i + b);
  }

  /** What word i - 1 contributes to byte b of word i. */
  lemma ScrambledByte(t: Word, i: nat, b: nat)
    requires 8 <= i < 60 && b < 4
    ensures Scrambled(t, i)[b] == if i % 8 == 0 then (if b == 0 then XorByte(Sbox(t[1]), [1, 2, 4, 8, 16, 32, 64][i / 8 - 1])
                                                      else Sbox(t[(b + 1) % 4]))
                                  else if i % 8 == 4 then Sbox(t[b]) else t[b]
  {
    hide Sbox, XorByte, Rcon;
    if i % 8 == 0 {
      RconTable(i / 8);
    }
  }

  // ----- rounds -----

  /** Byte 4 c + r of the state behind the S-box and the row shift. */
  function Moved(s: Block, c: nat, r: nat): Byte
    requires c < 4 && r < 4
  {
    Sbox(s[4 * ((c + r) % 4) + r])
  }

  lemma MovedIs(s: Block, c: nat, r: nat)
    requires c < 4 && r < 4
    ensures ShiftRows(SubBytes(s))[4 * c + r] == Moved(s, c, r)
  {
    hide Sbox;
    RowUp(c, r);
  }

  /** Round n, sections 5.1.1 to 5.1.4: byte r of column c. */
  lemma RoundByte(rk: RoundKeys, block: Block, n: nat, c: nat, r: nat)
    requires 1 <= n <= 13 && c < 4 && r < 4
    ensures var s := Forward(rk, block, n - 1);
      Forward(rk, block, n)[4 * c + r]
        == XorByte(Sum4(Mul(MATRIX[r][0], Moved(s, c, 0)), Mul(MATRIX[r][1], Moved(s, c, 1)),
                        Mul(MATRIX[r][2], Moved(s, c, 2)), Mul(MATRIX[r][3], Moved(s, c, 3))), rk[n][4 * c + r])
  {
    hide Sbox, Mul, XorByte, Forward, MixWith, ShiftRows, SubBytes, Moved;
    var s := Forward(rk, block, n - 1);
    var t := ShiftRows(SubBytes(s));
    RoundIs(rk, block, n);
    MovedIs(s, c, 0);
    MovedIs(s, c, 1);
    MovedIs(s, c, 2);
    MovedIs(s, c, 3);
    MixedByte(t, c, r);
  }

  lemma RoundIs(rk: RoundKeys, block: Block, n: nat)
    requires 1 <= n <= 13
    ensures Forward(rk, block, n) == XorBytes(MixColumns(ShiftRows(SubBytes(Forward(rk, block, n - 1)))), rk[n])
  {
    hide XorBytes, MixColumns, ShiftRows, SubBytes;
  }

  lemma MixedByte(t: Block, c: nat, r: nat)
    requires c < 4 && r < 4
    ensures MixColumns(t)[4 * c + r] == Sum4(Mul(MATRIX[r][0], t[4 * c]), Mul(MATRIX[r][1], t[4 * c + 1]),
                                             Mul(MATRIX[r][2], t[4 * c + 2]), Mul(MATRIX[r][3], t[4 * c + 3]))
  {
    hide Mul, XorByte, MixWith, MixColumn;
    MixedColumn(MIX, t, c);
    var col := Column(t, c);
    assert MixColumns(t)[4 * c + r] == Column(MixColumns(t), c)[r];
    MixedRow(col, r);
  }

  /** The matrix of equation (5.6). */
  const MATRIX: seq<Coefficients> := [[2, 3, 1, 1], [1, 2, 3, 1], [1, 1, 2, 3], [3, 1, 1, 2]]

  lemma MixedRow(col: Word, r: nat)
    requires r < 4
    ensures MixColumn(MIX, col)[r] == Sum4(Mul(MATRIX[r][0], col[0]), Mul(MATRIX[r][1], col[1]),
                                           Mul(MATRIX[r][2], col[2]), Mul(MATRIX[r][3], col[3]))
  {
    hide Mul, XorByte;
  }

  /** The first addition of a round key and the last round, which does not mix. */
  lemma EndBytes(rk: RoundKeys, block: Block, c: nat, r: nat)
    requires c < 4 && r < 4
    ensures Forward(rk, block, 0)[4 * c + r] == XorByte(block[4 * c + r], rk[0][4 * c + r])
    ensures Encrypt(rk, block)[4 * c + r] == XorByte(Moved(Forward(rk, block, 13), c, r), rk[14][4 * c + r])
  {
    hide Sbox, XorByte, ShiftRows, SubBytes, Moved, Forward;
    MovedIs(Forward(rk, block, 13), c, r);
    StartIs(rk, block);
  }

  lemma StartIs(rk: RoundKeys, block: Block)
    ensures Forward(rk, block, 0) == XorBytes(block, rk[0])
  {
    hide XorBytes;
  }
}
