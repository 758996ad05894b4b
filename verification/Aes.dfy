/** AES-256 on single blocks (section 5 of FIPS 197): decryption inverts
    encryption for every key. */
module Aes {
  import opened Blocks
  import opened Gf256

  type Key = k: Bytes | |k| == 32 witness seq(32, _ => 0)
  type Word = w: Bytes | |w| == 4 witness seq(4, _ => 0)

  // ----- the steps of a round -----

  function SubBytes(s: Block): (t: Block)
    ensures forall i :: 0 <= i < 16 ==> t[i] == Sbox(s[i])
  {
    seq(16, i requires 0 <= i < 16 => Sbox(s[i]))
  }

  function InvSubBytes(s: Block): (t: Block)
    ensures forall i :: 0 <= i < 16 ==> t[i] == InvSbox(s[i])
  {
    seq(16, i requires 0 <= i < 16 => InvSbox(s[i]))
  }

  function ShiftRows(s: Block): (t: Block)
    ensures forall i :: 0 <= i < 16 ==> t[i] == s[(i + 4 * (i % 4)) % 16]
  {
    seq(16, i requires 0 <= i < 16 => s[(i + 4 * (i % 4)) % 16])
  }

  function InvShiftRows(s: Block): (t: Block)
    ensures forall i :: 0 <= i < 16 ==> t[i] == s[(i - 4 * (i % 4)) % 16]
  {
    seq(16, i requires 0 <= i < 16 => s[(i - 4 * (i % 4)) % 16])
  }

  lemma SubBytesInverse(s: Block)
    ensures InvSubBytes(SubBytes(s)) == s && SubBytes(InvSubBytes(s)) == s
  {
    hide Sbox, InvSbox;
    forall i | 0 <= i < 16 ensures InvSbox(Sbox(s[i])) == s[i] && Sbox(InvSbox(s[i])) == s[i] {
      SboxInverse(s[i]);
    }
  }

  /** Position 4c + r of the state moved c + r columns on, and back. */
  lemma RowUp(c: int, r: int)
    requires 0 <= c < 4 && 0 <= r < 4
    ensures (4 * c + r + 4 * r) % 16 == 4 * ((c + r) % 4) + r
    ensures (4 * c + r) % 4 == r
    ensures ((c + r) % 4 - r) % 4 == c
  {
    assert (c + r) % 4 == if c + r < 4 then c + r else c + r - 4;
  }

  lemma RowDown(c: int, r: int)
    requires 0 <= c < 4 && 0 <= r < 4
    ensures (4 * c + r - 4 * r) % 16 == 4 * ((c - r) % 4) + r
    ensures ((c - r) % 4 + r) % 4 == c
  {
    assert (c - r) % 4 == if c >= r then c - r else c - r + 4;
  }

  lemma RowIndex(i: nat)
    requires i < 16
    ensures var j := (i + 4 * (i % 4)) % 16; 0 <= j < 16 && (j - 4 * (j % 4)) % 16 == i
    ensures var j := (i - 4 * (i % 4)) % 16; 0 <= j < 16 && (j + 4 * (j % 4)) % 16 == i
  {
    var c, r := i / 4, i % 4;
    assert i == 4 * c + r && 0 <= c < 4 && 0 <= r < 4;
    RowUp(c, r);
    RowDown(c, r);
    UpThenDown(c, r);
    DownThenUp(c, r);
  }

  lemma UpThenDown(c: int, r: int)
    requires 0 <= c < 4 && 0 <= r < 4
    ensures var j := 4 * ((c + r) % 4) + r; 0 <= j < 16 && (j - 4 * (j % 4)) % 16 == 4 * c + r
  {
    var up := (c + r) % 4;
    RowUp(c, r);
    RowUp(up, r);
    RowDown(up, r);
  }

  lemma DownThenUp(c: int, r: int)
    requires 0 <= c < 4 && 0 <= r < 4
    ensures var j := 4 * ((c - r) % 4) + r; 0 <= j < 16 && (j + 4 * (j % 4)) % 16 == 4 * c + r
  {
    var down := (c - r) % 4;
    RowDown(c, r);
    RowUp(down, r);
  }

  lemma ShiftRowsInverse(s: Block)
    ensures InvShiftRows(ShiftRows(s)) == s && ShiftRows(InvShiftRows(s)) == s
  {
    forall i | 0 <= i < 16 ensures InvShiftRows(ShiftRows(s))[i] == s[i] && ShiftRows(InvShiftRows(s))[i] == s[i] {
      RowIndex(i);
    }
  }

  // ----- MixColumns -----

  /** The sum of four field elements. */
  function Sum4(a: Byte, b: Byte, c: Byte, d: Byte): Byte {
    XorByte(XorByte(a, b), XorByte(c, d))
  }

  type Coefficients = c: seq<Byte> | |c| == 4 witness [0, 0, 0, 0]

  const MIX: Coefficients := [2, 3, 1, 1]
  const UNMIX: Coefficients := [14, 11, 13, 9]

  /** Entry r of the circulant matrix of `c` times a column. */
  function Row(c: Coefficients, col: Word, r: nat): Byte
    requires r < 4
  {
    Sum4(Mul(c[(0 - r) % 4], col[0]), Mul(c[(1 - r) % 4], col[1]), Mul(c[(2 - r) % 4], col[2]), Mul(c[(3 - r) % 4], col[3]))
  }

  function MixColumn(c: Coefficients, col: Word): Word {
    [Row(c, col, 0), Row(c, col, 1), Row(c, col, 2), Row(c, col, 3)]
  }

  function Column(s: Block, k: nat): Word
    requires k < 4
  {
    s[4 * k..4 * k + 4]
  }

  function MixWith(c: Coefficients, s: Block): (t: Block) {
    hide *;
    MixColumn(c, Column(s, 0)) + MixColumn(c, Column(s, 1)) + MixColumn(c, Column(s, 2)) + MixColumn(c, Column(s, 3))
  }

  function MixColumns(s: Block): Block {
    MixWith(MIX, s)
  }

  function InvMixColumns(s: Block): Block {
    MixWith(UNMIX, s)
  }

  lemma Sum4Add(a: Byte, b: Byte, c: Byte, d: Byte, a': Byte, b': Byte, c': Byte, d': Byte)
    ensures XorByte(Sum4(a, b, c, d), Sum4(a', b', c', d'))
         == Sum4(XorByte(a, a'), XorByte(b, b'), XorByte(c, c'), XorByte(d, d'))
  {
    hide XorByte;
    XorInterchange(XorByte(a, b), XorByte(c, d), XorByte(a', b'), XorByte(c', d'));
    XorInterchange(a, b, a', b');
    XorInterchange(c, d, c', d');
  }

  /** Summing a square of elements by rows or by columns. */
  lemma Transpose(t: seq<Word>)
    requires |t| == 4
    ensures Sum4(Sum4(t[0][0], t[0][1], t[0][2], t[0][3]), Sum4(t[1][0], t[1][1], t[1][2], t[1][3]),
                 Sum4(t[2][0], t[2][1], t[2][2], t[2][3]), Sum4(t[3][0], t[3][1], t[3][2], t[3][3]))
         == Sum4(Sum4(t[0][0], t[1][0], t[2][0], t[3][0]), Sum4(t[0][1], t[1][1], t[2][1], t[3][1]),
                 Sum4(t[0][2], t[1][2], t[2][2], t[3][2]), Sum4(t[0][3], t[1][3], t[2][3], t[3][3]))
  {
    hide XorByte;
    Sum4Add(t[0][0], t[0][1], t[0][2], t[0][3], t[1][0], t[1][1], t[1][2], t[1][3]);
    Sum4Add(t[2][0], t[2][1], t[2][2], t[2][3], t[3][0], t[3][1], t[3][2], t[3][3]);
    Sum4Add(XorByte(t[0][0], t[1][0]), XorByte(t[0][1], t[1][1]), XorByte(t[0][2], t[1][2]), XorByte(t[0][3], t[1][3]),
            XorByte(t[2][0], t[3][0]), XorByte(t[2][1], t[3][1]), XorByte(t[2][2], t[3][2]), XorByte(t[2][3], t[3][3]));
  }

  lemma MulSum4(m: Byte, a: Byte, b: Byte, c: Byte, d: Byte)
    ensures Mul(m, Sum4(a, b, c, d)) == Sum4(Mul(m, a), Mul(m, b), Mul(m, c), Mul(m, d))
  {
    hide XorByte, Mul;
    MulLinear(m, XorByte(a, b), XorByte(c, d));
    MulLinear(m, a, b);
    MulLinear(m, c, d);
  }

  lemma Sum4Mul(a: Byte, b: Byte, c: Byte, d: Byte, x: Byte)
    ensures Sum4(Mul(a, x), Mul(b, x), Mul(c, x), Mul(d, x)) == Mul(Sum4(a, b, c, d), x)
  {
    hide XorByte, Mul;
    MulLeftLinear(XorByte(a, b), XorByte(c, d), x);
    MulLeftLinear(a, b, x);
    MulLeftLinear(c, d, x);
  }

  /** Entry (r, j) of the product of the two circulant matrices. */
  function Entry(p: Coefficients, q: Coefficients, r: nat, j: nat): Byte
    requires r < 4 && j < 4
  {
    Sum4(Mul(p[(0 - r) % 4], q[j % 4]), Mul(p[(1 - r) % 4], q[(j - 1) % 4]),
         Mul(p[(2 - r) % 4], q[(j - 2) % 4]), Mul(p[(3 - r) % 4], q[(j - 3) % 4]))
  }

  /** Column j of the summands of the composed map collapses to one product. */
  lemma EntryTimes(p: Coefficients, q: Coefficients, r: nat, j: nat, x: Byte)
    requires r < 4 && j < 4
    ensures Sum4(Mul(p[(0 - r) % 4], Mul(q[j % 4], x)), Mul(p[(1 - r) % 4], Mul(q[(j - 1) % 4], x)),
                 Mul(p[(2 - r) % 4], Mul(q[(j - 2) % 4], x)), Mul(p[(3 - r) % 4], Mul(q[(j - 3) % 4], x)))
         == Mul(Entry(p, q, r, j), x)
  {
    hide Mul, Sum4;
    MulAssociates(p[(0 - r) % 4], q[j % 4], x);
    MulAssociates(p[(1 - r) % 4], q[(j - 1) % 4], x);
    MulAssociates(p[(2 - r) % 4], q[(j - 2) % 4], x);
    MulAssociates(p[(3 - r) % 4], q[(j - 3) % 4], x);
    Sum4Mul(Mul(p[(0 - r) % 4], q[j % 4]), Mul(p[(1 - r) % 4], q[(j - 1) % 4]),
            Mul(p[(2 - r) % 4], q[(j - 2) % 4]), Mul(p[(3 - r) % 4], q[(j - 3) % 4]), x);
  }

  /** Mixing with q, then with p, multiplies by the product of the matrices. */
  lemma ComposedRow(p: Coefficients, q: Coefficients, col: Word, r: nat)
    requires r < 4
    ensures Row(p, MixColumn(q, col), r)
         == Sum4(Mul(Entry(p, q, r, 0), col[0]), Mul(Entry(p, q, r, 1), col[1]),
                 Mul(Entry(p, q, r, 2), col[2]), Mul(Entry(p, q, r, 3), col[3]))
  {
    hide Mul, Sum4, Entry;
    var t: seq<Word> := [Summands(p[(0 - r) % 4], q, col, 0), Summands(p[(1 - r) % 4], q, col, 1),
                         Summands(p[(2 - r) % 4], q, col, 2), Summands(p[(3 - r) % 4], q, col, 3)];
    SummandsAre(p[(0 - r) % 4], q, col, 0);
    SummandsAre(p[(1 - r) % 4], q, col, 1);
    SummandsAre(p[(2 - r) % 4], q, col, 2);
    SummandsAre(p[(3 - r) % 4], q, col, 3);
    Transpose(t);
    EntryTimes(p, q, r, 0, col[0]);
    EntryTimes(p, q, r, 1, col[1]);
    EntryTimes(p, q, r, 2, col[2]);
    EntryTimes(p, q, r, 3, col[3]);
  }

  function Summands(m: Byte, q: Coefficients, col: Word, k: nat): Word
    requires k < 4
  {
    [Mul(m, Mul(q[(0 - k) % 4], col[0])), Mul(m, Mul(q[(1 - k) % 4], col[1])),
     Mul(m, Mul(q[(2 - k) % 4], col[2])), Mul(m, Mul(q[(3 - k) % 4], col[3]))]
  }

  lemma SummandsAre(m: Byte, q: Coefficients, col: Word, k: nat)
    requires k < 4
    ensures var t := Summands(m, q, col, k); Mul(m, Row(q, col, k)) == Sum4(t[0], t[1], t[2], t[3])
  {
    hide Mul, Sum4;
    MulSum4(m, Mul(q[(0 - k) % 4], col[0]), Mul(q[(1 - k) % 4], col[1]), Mul(q[(2 - k) % 4], col[2]), Mul(q[(3 - k) % 4], col[3]));
  }

  lemma ProductsLow()
    ensures Mul(14, 1) == 14 && Mul(14, 2) == 28 && Mul(14, 3) == 18 && Mul(11, 1) == 11
    ensures Mul(11, 2) == 22 && Mul(11, 3) == 29
  {
  }

  lemma ProductsHigh()
    ensures Mul(13, 1) == 13 && Mul(13, 2) == 26 && Mul(13, 3) == 23 && Mul(9, 1) == 9
    ensures Mul(9, 2) == 18 && Mul(9, 3) == 27
  {
  }

  lemma ProductsLowSwapped()
    ensures Mul(1, 14) == 14 && Mul(2, 14) == 28 && Mul(3, 14) == 18 && Mul(1, 11) == 11
    ensures Mul(2, 11) == 22 && Mul(3, 11) == 29
  {
  }

  lemma ProductsHighSwapped()
    ensures Mul(1, 13) == 13 && Mul(2, 13) == 26 && Mul(3, 13) == 23 && Mul(1, 9) == 9
    ensures Mul(2, 9) == 18 && Mul(3, 9) == 27
  {
  }

  /** Row r of the product of the matrices is row r of the unit matrix. */
  predicate UnitEntries(p: Coefficients, q: Coefficients, r: nat)
    requires r < 4
  {
    forall j: nat | j < 4 :: Entry(p, q, r, j) == if r == j then 1 else 0
  }

  /** The sixteen entries of the product, summed. */
  lemma EntrySums()
    ensures Sum4(28, 11, 13, 27) == 1 && Sum4(18, 22, 13, 9) == 0 && Sum4(14, 29, 26, 9) == 0 && Sum4(14, 11, 23, 18) == 0
    ensures Sum4(18, 14, 11, 23) == 0 && Sum4(27, 28, 11, 13) == 1 && Sum4(9, 18, 22, 13) == 0 && Sum4(9, 14, 29, 26) == 0
    ensures Sum4(26, 9, 14, 29) == 0 && Sum4(23, 18, 14, 11) == 0 && Sum4(13, 27, 28, 11) == 1 && Sum4(13, 9, 18, 22) == 0
    ensures Sum4(22, 13, 9, 18) == 0 && Sum4(29, 26, 9, 14) == 0 && Sum4(11, 23, 18, 14) == 0 && Sum4(11, 13, 27, 28) == 1
  {
  }

  lemma EntrySumsSwapped()
    ensures Sum4(28, 27, 13, 11) == 1 && Sum4(22, 18, 9, 13) == 0 && Sum4(26, 29, 14, 9) == 0 && Sum4(18, 23, 11, 14) == 0
    ensures Sum4(14, 18, 23, 11) == 0 && Sum4(11, 28, 27, 13) == 1 && Sum4(13, 22, 18, 9) == 0 && Sum4(9, 26, 29, 14) == 0
    ensures Sum4(14, 9, 26, 29) == 0 && Sum4(11, 14, 18, 23) == 0 && Sum4(13, 11, 28, 27) == 1 && Sum4(9, 13, 22, 18) == 0
    ensures Sum4(18, 9, 13, 22) == 0 && Sum4(29, 14, 9, 26) == 0 && Sum4(23, 11, 14, 18) == 0 && Sum4(27, 13, 11, 28) == 1
  {
  }

  lemma UnmixMixUpper(p: Coefficients, q: Coefficients, r: nat)
    requires p == UNMIX && q == MIX && r < 2
    ensures UnitEntries(p, q, r)
  {
    hide Mul, Sum4;
    ProductsLow();
    ProductsHigh();
    EntrySums();
    if r == 0 {
    } else {
    }
  }

  lemma UnmixMixLower(p: Coefficients, q: Coefficients, r: nat)
    requires p == UNMIX && q == MIX && 2 <= r < 4
    ensures UnitEntries(p, q, r)
  {
    hide Mul, Sum4;
    ProductsLow();
    ProductsHigh();
    EntrySums();
    if r == 2 {
    } else {
    }
  }

  lemma UnmixMix(p: Coefficients, q: Coefficients, r: nat)
    requires p == UNMIX && q == MIX && r < 4
    ensures UnitEntries(p, q, r)
  {
    hide UnitEntries;
    if r < 2 {
      UnmixMixUpper(p, q, r);
    } else {
      UnmixMixLower(p, q, r);
    }
  }

  lemma MixUnmixUpper(p: Coefficients, q: Coefficients, r: nat)
    requires p == MIX && q == UNMIX && r < 2
    ensures UnitEntries(p, q, r)
  {
    hide Mul, Sum4;
    ProductsLowSwapped();
    ProductsHighSwapped();
    EntrySumsSwapped();
    if r == 0 {
    } else {
    }
  }

  lemma MixUnmixLower(p: Coefficients, q: Coefficients, r: nat)
    requires p == MIX && q == UNMIX && 2 <= r < 4
    ensures UnitEntries(p, q, r)
  {
    hide Mul, Sum4;
    ProductsLowSwapped();
    ProductsHighSwapped();
    EntrySumsSwapped();
    if r == 2 {
    } else {
    }
  }

  lemma MixUnmix(p: Coefficients, q: Coefficients, r: nat)
    requires p == MIX && q == UNMIX && r < 4
    ensures UnitEntries(p, q, r)
  {
    hide UnitEntries;
    if r < 2 {
      MixUnmixUpper(p, q, r);
    } else {
      MixUnmixLower(p, q, r);
    }
  }

  lemma UnitRow(p: Coefficients, q: Coefficients, col: Word, r: nat)
    requires r < 4 && UnitEntries(p, q, r)
    ensures Row(p, MixColumn(q, col), r) == col[r]
  {
    hide Mul, Entry, XorByte, MixColumn, Row;
    ComposedRow(p, q, col, r);
    UnitTimes(p, q, r, 0, col[0]);
    UnitTimes(p, q, r, 1, col[1]);
    UnitTimes(p, q, r, 2, col[2]);
    UnitTimes(p, q, r, 3, col[3]);
    XorByteTwice(0, 0);
    XorByteTwice(col[r], 0);
    XorByteTwice(0, col[r]);
  }

  lemma UnitTimes(p: Coefficients, q: Coefficients, r: nat, j: nat, x: Byte)
    requires r < 4 && j < 4 && Entry(p, q, r, j) == if r == j then 1 else 0
    ensures Mul(Entry(p, q, r, j), x) == if r == j then x else 0
  {
    hide Mul, Entry;
    MulOne(x);
    ZeroTimes(x);
  }

  lemma ZeroTimes(x: Byte)
    ensures Mul(0, x) == 0
  {
    hide MulFrom;
    ZeroTimesFrom(x, 8);
  }

  lemma {:induction false} ZeroTimesFrom(x: Byte, n: nat)
    ensures MulFrom(0, x, n) == 0
    decreases n
  {
    hide Half;
    if n != 0 {
      ZeroTimesFrom(Half(x), n - 1);
    }
  }

  lemma MixColumnInverse(col: Word)
    ensures MixColumn(UNMIX, MixColumn(MIX, col)) == col
    ensures MixColumn(MIX, MixColumn(UNMIX, col)) == col
  {
    hide Row, UnitEntries;
    forall r | 0 <= r < 4
      ensures Row(UNMIX, MixColumn(MIX, col), r) == col[r] && Row(MIX, MixColumn(UNMIX, col), r) == col[r]
    {
      UnmixMix(UNMIX, MIX, r);
      MixUnmix(MIX, UNMIX, r);
      UnitRow(UNMIX, MIX, col, r);
      UnitRow(MIX, UNMIX, col, r);
    }
  }

  lemma MixedColumn(c: Coefficients, s: Block, k: nat)
    requires k < 4
    ensures Column(MixWith(c, s), k) == MixColumn(c, Column(s, k))
  {
    hide MixColumn;
  }

  lemma FourColumns(s: Block)
    ensures s == Column(s, 0) + Column(s, 1) + Column(s, 2) + Column(s, 3)
  {
  }

  /** InvMixColumns undoes MixColumns, and the other way round. */
  lemma MixColumnsInverse(s: Block)
    ensures InvMixColumns(MixColumns(s)) == s && MixColumns(InvMixColumns(s)) == s
  {
    hide MixColumn, Column;
    forall k | 0 <= k < 4
      ensures MixColumn(UNMIX, Column(MixColumns(s), k)) == Column(s, k)
      ensures MixColumn(MIX, Column(InvMixColumns(s), k)) == Column(s, k)
    {
      MixedColumn(MIX, s, k);
      MixedColumn(UNMIX, s, k);
      MixColumnInverse(Column(s, k));
    }
    FourColumns(s);
  }

  // ----- the rounds -----

  type RoundKeys = k: seq<Block> | |k| == 15 witness seq(15, _ => Zeros(16))

  /** The state after n rounds, before the last one. */
  function Forward(rk: RoundKeys, block: Block, n: nat): Block
    requires n <= 13
  {
    hide *;
    if n == 0 then XorBytes(block, rk[0])
    else XorBytes(MixColumns(ShiftRows(SubBytes(Forward(rk, block, n - 1)))), rk[n])
  }

  function Encrypt(rk: RoundKeys, block: Block): Block {
    hide *;
    XorBytes(ShiftRows(SubBytes(Forward(rk, block, 13))), rk[14])
  }

  /** What decryption makes of a state from round n down. */
  function Backward(rk: RoundKeys, s: Block, n: nat): Block
    requires n <= 13
    decreases n
  {
    hide *;
    var t := InvSubBytes(InvShiftRows(s));
    if n == 0 then XorBytes(t, rk[0])
    else Backward(rk, InvMixColumns(XorBytes(t, rk[n])), n - 1)
  }

  function Decrypt(rk: RoundKeys, block: Block): Block {
    hide *;
    Backward(rk, XorBytes(block, rk[14]), 13)
  }

  lemma {:induction false} BackwardUndoes(rk: RoundKeys, block: Block, n: nat)
    requires n <= 13
    ensures Backward(rk, ShiftRows(SubBytes(Forward(rk, block, n))), n) == block
    decreases n
  {
    hide XorBytes, SubBytes, InvSubBytes, ShiftRows, InvShiftRows, MixColumns, InvMixColumns;
    var f := Forward(rk, block, n);
    ShiftRowsInverse(SubBytes(f));
    SubBytesInverse(f);
    if n == 0 {
      XorTwice(block, rk[0]);
    } else {
      var s := ShiftRows(SubBytes(Forward(rk, block, n - 1)));
      XorTwice(MixColumns(s), rk[n]);
      MixColumnsInverse(s);
      BackwardUndoes(rk, block, n - 1);
    }
  }

  lemma {:induction false} ForwardUndoes(rk: RoundKeys, s: Block, n: nat)
    requires n <= 13
    ensures ShiftRows(SubBytes(Forward(rk, Backward(rk, s, n), n))) == s
    decreases n
  {
    hide XorBytes, SubBytes, InvSubBytes, ShiftRows, InvShiftRows, MixColumns, InvMixColumns;
    var t := InvSubBytes(InvShiftRows(s));
    if n == 0 {
      XorTwice(t, rk[0]);
    } else {
      var u := XorBytes(t, rk[n]);
      ForwardUndoes(rk, InvMixColumns(u), n - 1);
      MixColumnsInverse(u);
      XorTwice(t, rk[n]);
    }
    SubBytesInverse(InvShiftRows(s));
    ShiftRowsInverse(s);
  }

  /** Decryption inverts encryption, and encryption decryption, for all round
      keys and all blocks. */
  lemma DecryptEncrypt(rk: RoundKeys, block: Block)
    ensures Decrypt(rk, Encrypt(rk, block)) == block
    ensures Encrypt(rk, Decrypt(rk, block)) == block
  {
    hide XorBytes, SubBytes, ShiftRows, Forward, Backward;
    XorTwice(ShiftRows(SubBytes(Forward(rk, block, 13))), rk[14]);
    BackwardUndoes(rk, block, 13);
    ForwardUndoes(rk, XorBytes(block, rk[14]), 13);
    XorTwice(block, rk[14]);
  }
}
