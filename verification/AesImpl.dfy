/** AES-256 as the two forms compute it: with generated tables, and without
    tables or branches over byte arrays. */
module AesImpl {
  import opened Blocks
  import opened Gf256
  import opened Aes

  // ----- the tables -----

  /** The affine sum after n of its five rotations. */
  function AffineSum(v: Byte, n: nat): Byte
    requires n <= 5
  {
    if n == 0 then 0x63 else XorByte(AffineSum(v, n - 1), if n == 1 then v else Rotl(v, n - 1))
  }

  lemma AffineSumIs(v: Byte)
    ensures AffineSum(v, 5) == Affine(v)
  {
    hide Rotl, XorByte;
    var s1 := XorByte(0x63, v);
    assert AffineSum(v, 1) == XorByte(AffineSum(v, 0), v) == s1;
    var s3 := XorByte(XorByte(s1, Rotl(v, 1)), Rotl(v, 2));
    assert AffineSum(v, 3) == s3;
    assert AffineSum(v, 5) == XorByte(XorByte(s3, Rotl(v, 3)), Rotl(v, 4));
    SumOfSix(v, Rotl(v, 1), Rotl(v, 2), Rotl(v, 3), Rotl(v, 4));
  }

  lemma SumOfSix(v: Byte, a: Byte, b: Byte, c: Byte, d: Byte)
    ensures XorByte(XorByte(XorByte(XorByte(XorByte(0x63, v), a), b), c), d) == v ^ a ^ b ^ c ^ d ^ 0x63
  {
  }

  lemma ZeroInv()
    ensures Inv(0) == 0
  {
    hide Pow, Mul;
    PowAdd(0, 1, 253);
    PowOne(0);
    ZeroTimes(Pow(0, 253));
  }

  /** The byte of a table index. */
  function Index(k: nat): Byte
    requires k < 256
  {
    k as Byte
  }

  lemma IndexOfByte(x: Byte)
    ensures Index(x as int) == x
  {
  }

  predicate SboxTable(t: seq<Byte>) {
    |t| == 256 && forall k :: 0 <= k < 256 ==> t[k] == Sbox(Index(k))
  }

  lemma Lookup(t: seq<Byte>, x: Byte)
    requires SboxTable(t)
    ensures t[x as int] == Sbox(x)
  {
    hide Sbox, Index;
    IndexOfByte(x);
  }

  method MakeSbox() returns (sbox: array<Byte>)
    ensures fresh(sbox) && SboxTable(sbox[..])
  {
    hide Inv, Affine, Sbox, Rotl, XorByte, Index;
    sbox := new Byte[256];
    for a := 0 to 256
      invariant forall k :: 0 <= k < a ==> sbox[k] == Sbox(Index(k))
    {
      var v: Byte := 0;
      if a != 0 {
        v := GfInv(Index(a));
      } else {
        ZeroInv();
        IndexZero();
      }
      var s: Byte := 0x63;
      for i := 0 to 5
        invariant s == AffineSum(v, i)
      {
        s := XorByte(s, if i == 0 then v else Rotl(v, i));
      }
      AffineSumIs(v);
      SboxIs(Index(a));
      sbox[a] := s;
    }
  }

  lemma IndexZero()
    ensures Index(0) == 0
  {
  }

  lemma SboxInjective(x: Byte, y: Byte)
    requires Sbox(x) == Sbox(y)
    ensures x == y
  {
    hide Sbox, InvSbox;
    SboxInverse(x);
    SboxInverse(y);
  }

  /** The inverse table is filled by inverting the first, and because that is a
      bijection every entry is written. */
  method MakeInvSbox(sbox: array<Byte>) returns (inv: array<Byte>)
    requires SboxTable(sbox[..])
    ensures fresh(inv) && inv.Length == 256 && forall x: Byte :: inv[x as int] == InvSbox(x)
  {
    hide Sbox, InvSbox, Index;
    inv := new Byte[256];
    for a := 0 to 256
      invariant forall k :: 0 <= k < a ==> inv[sbox[k] as int] == Index(k)
    {
      forall k | 0 <= k < a && sbox[k] as int == sbox[a] as int ensures Index(k) == Index(a) {
        IndexOfByte(sbox[k]);
        IndexOfByte(sbox[a]);
        assert sbox[k] == sbox[..][k] && sbox[a] == sbox[..][a];
        SboxInjective(Index(k), Index(a));
      }
      inv[sbox[a] as int] := Index(a);
    }
    forall x: Byte ensures inv[x as int] == InvSbox(x) {
      var y := InvSbox(x);
      SboxInverse(x);
      Lookup(sbox[..], y);
      IndexOfByte(y);
      assert sbox[y as int] == sbox[..][y as int] == x;
    }
  }

  lemma SboxIs(x: Byte)
    ensures Sbox(x) == Affine(Inv(x))
  {
    hide Affine, Inv;
  }

  // ----- the key schedule -----

  function SubWord(w: Word): Word {
    [Sbox(w[0]), Sbox(w[1]), Sbox(w[2]), Sbox(w[3])]
  }

  function RotWord(w: Word): Word {
    [w[1], w[2], w[3], w[0]]
  }

  function Rcon(k: nat): Byte {
    if k == 0 then 0 else Pow(2, k - 1)
  }

  /** What word i - 1 contributes to word i. */
  function Scrambled(t: Word, i: nat): Word {
    if i % 8 == 0 then var u := SubWord(RotWord(t)); u[0 := XorByte(u[0], Rcon(i / 8))]
    else if i % 8 == 4 then SubWord(t)
    else t
  }

  function KeyWord(key: Key, i: nat): Word
    requires i < 60
  {
    if i < 8 then key[4 * i..4 * i + 4]
    else XorBytes(KeyWord(key, i - 8), Scrambled(KeyWord(key, i - 1), i))
  }

  function Joined(a: Word, b: Word, c: Word, d: Word): Block {
    var s: Bytes := a;
    s + b + c + d
  }

  function RoundKey(key: Key, r: nat): Block
    requires r < 15
  {
    hide *;
    Joined(KeyWord(key, 4 * r), KeyWord(key, 4 * r + 1), KeyWord(key, 4 * r + 2), KeyWord(key, 4 * r + 3))
  }

  function RoundKeysOf(key: Key): (rk: RoundKeys)
    ensures forall r :: 0 <= r < 15 ==> rk[r] == RoundKey(key, r)
  {
    seq(15, r requires 0 <= r < 15 => RoundKey(key, r))
  }

  function LookupWord(sbox: seq<Byte>, w: Word): (u: Word)
    requires SboxTable(sbox)
    ensures u == SubWord(w)
  {
    hide Sbox, SboxTable;
    TableLength(sbox);
    Lookup(sbox, w[0]);
    Lookup(sbox, w[1]);
    Lookup(sbox, w[2]);
    Lookup(sbox, w[3]);
    [sbox[w[0] as int], sbox[w[1] as int], sbox[w[2] as int], sbox[w[3] as int]]
  }

  lemma TableLength(t: seq<Byte>)
    requires SboxTable(t)
    ensures |t| == 256
  {
  }

  /** The schedule with tables; the round constant doubles as it goes. */
  method KeySchedule(key: Key, sbox: seq<Byte>) returns (rk: RoundKeys)
    requires SboxTable(sbox)
    ensures rk == RoundKeysOf(key)
  {
    hide Sbox, SboxTable, SubWord, Pow, XorBytes, XorByte, KeyWord, Rcon, Mul, Joined;
    var words: seq<Word> := [];
    for i := 0 to 8
      invariant |words| == i && forall k :: 0 <= k < i ==> words[k] == KeyWord(key, k)
    {
      FirstWord(key, i);
      words := words + [key[4 * i..4 * i + 4]];
    }
    var rcon: Byte := 1;
    FirstRcon();
    for i := 8 to 60
      invariant |words| == i && forall k :: 0 <= k < i ==> words[k] == KeyWord(key, k)
      invariant rcon == Rcon((i + 7) / 8)
    {
      var t := words[i - 1];
      if i % 8 == 0 {
        t := LookupWord(sbox, RotWord(t));
        t := t[0 := XorByte(t[0], rcon)];
        NextRcon(i / 8);
        rcon := GfMul(rcon, 2);
      } else if i % 8 == 4 {
        t := LookupWord(sbox, t);
      }
      assert t == Scrambled(words[i - 1], i);
      NextWord(key, i);
      words := words + [XorBytes(words[i - 8], t)];
    }
    rk := seq(15, r requires 0 <= r < 15 => Joined(words[4 * r], words[4 * r + 1], words[4 * r + 2], words[4 * r + 3]));
    forall r | 0 <= r < 15 ensures rk[r] == RoundKey(key, r) {
      RoundKeyIs(key, r);
    }
  }

  lemma FirstWord(key: Key, i: nat)
    requires i < 8
    ensures KeyWord(key, i) == key[4 * i..4 * i + 4]
  {
  }

  lemma NextWord(key: Key, i: nat)
    requires 8 <= i < 60
    ensures KeyWord(key, i) == XorBytes(KeyWord(key, i - 8), Scrambled(KeyWord(key, i - 1), i))
  {
    hide XorBytes, Scrambled;
  }

  lemma RoundKeyIs(key: Key, r: nat)
    requires r < 15
    ensures RoundKey(key, r) == Joined(KeyWord(key, 4 * r), KeyWord(key, 4 * r + 1), KeyWord(key, 4 * r + 2), KeyWord(key, 4 * r + 3))
  {
    hide KeyWord;
  }

  lemma FirstRcon()
    ensures Rcon(1) == 1
  {
  }

  lemma NextRcon(k: nat)
    requires 1 <= k
    ensures Mul(Rcon(k), 2) == Rcon(k + 1)
  {
    hide Mul, Pow;
    PowAdd(2, k - 1, 1);
    PowOne(2);
  }

  // ----- the form with tables -----

  function LookupBlock(t: seq<Byte>, s: Block): Block
    requires |t| == 256
  {
    seq(16, i requires 0 <= i < 16 => t[s[i] as int])
  }

  lemma LookupIsSub(t: seq<Byte>, s: Block)
    requires SboxTable(t)
    ensures |t| == 256 && LookupBlock(t, s) == SubBytes(s)
  {
    hide Sbox, Index;
    forall i | 0 <= i < 16 ensures LookupBlock(t, s)[i] == SubBytes(s)[i] {
      Lookup(t, s[i]);
    }
  }

  method EncryptBlock(key: Key, block: Block, sbox: seq<Byte>) returns (c: Block)
    requires SboxTable(sbox)
    ensures c == Encrypt(RoundKeysOf(key), block)
  {
    hide XorBytes, SubBytes, ShiftRows, MixColumns, LookupBlock, SboxTable, RoundKey;
    var rk := KeySchedule(key, sbox);
    LookupIsSub(sbox, block);
    var s: Block := XorBytes(block, rk[0]);
    for rnd := 1 to 14
      invariant s == Forward(rk, block, rnd - 1)
    {
      LookupIsSub(sbox, s);
      s := MixColumns(ShiftRows(LookupBlock(sbox, s)));
      s := XorBytes(s, rk[rnd]);
    }
    LookupIsSub(sbox, s);
    c := XorBytes(ShiftRows(LookupBlock(sbox, s)), rk[14]);
  }

  lemma LookupIsInvSub(t: seq<Byte>, s: Block)
    requires |t| == 256 && forall x: Byte :: t[x as int] == InvSbox(x)
    ensures LookupBlock(t, s) == InvSubBytes(s)
  {
    hide InvSbox;
    forall i | 0 <= i < 16 ensures LookupBlock(t, s)[i] == InvSubBytes(s)[i] {
      assert t[s[i] as int] == InvSbox(s[i]);
    }
  }

  method DecryptBlock(key: Key, block: Block, sbox: seq<Byte>, inv: seq<Byte>) returns (m: Block)
    requires SboxTable(sbox) && |inv| == 256 && forall x: Byte :: inv[x as int] == InvSbox(x)
    ensures m == Decrypt(RoundKeysOf(key), block)
  {
    hide XorBytes, InvSubBytes, InvShiftRows, InvMixColumns, LookupBlock, SboxTable, RoundKey, InvSbox;
    var rk := KeySchedule(key, sbox);
    var s: Block := XorBytes(block, rk[14]);
    var rnd := 13;
    while rnd > 0
      invariant 0 <= rnd <= 13
      invariant Backward(rk, s, rnd) == Decrypt(rk, block)
    {
      LookupIsInvSub(inv, InvShiftRows(s));
      s := LookupBlock(inv, InvShiftRows(s));
      s := InvMixColumns(XorBytes(s, rk[rnd]));
      rnd := rnd - 1;
    }
    LookupIsInvSub(inv, InvShiftRows(s));
    m := XorBytes(LookupBlock(inv, InvShiftRows(s)), rk[0]);
  }

  // ----- the form without tables or branches -----

  /** The S-box by arithmetic. */
  method SboxCt(x: Byte) returns (s: Byte)
    ensures s == Sbox(x)
  {
    hide Inv, Rotl;
    var b := GfInv(x);
    s := b ^ Rotl(b, 1) ^ Rotl(b, 2) ^ Rotl(b, 3) ^ Rotl(b, 4) ^ 0x63;
  }

  /** Doubling with a mask made from the top bit. */
  function XtimeCt(a: Byte): Byte {
    (a << 1) ^ (0x1b & (0 - ((a >> 7) & 1)))
  }

  lemma XtimeIsDouble(a: Byte)
    ensures XtimeCt(a) == Double(a)
  {
  }

  lemma SmallProducts(a: Byte)
    ensures Mul(1, a) == a && Mul(2, a) == XtimeCt(a) && Mul(3, a) == XorByte(XtimeCt(a), a)
  {
    hide MulFrom, XorByte, XtimeCt, Double;
    MulOne(a);
    XtimeIsDouble(a);
    MulFromDouble(1, a, 8);
    TwoAndThree();
    MulLeftLinear(2, 1, a);
  }

  lemma TwoAndThree()
    ensures Double(1) == 2 && XorByte(2, 1) == 3
  {
  }

  method AddRoundKey(s: array<Byte>, rk: array<Byte>, off: nat)
    requires s.Length == 16 && off + 16 <= rk.Length && s != rk
    modifies s
    ensures s[..] == XorBytes(old(s[..]), rk[off..off + 16])
  {
    hide XorByte;
    for i := 0 to 16
      invariant forall k :: 0 <= k < i ==> s[k] == XorByte(old(s[k]), rk[off + k])
      invariant forall k :: i <= k < 16 ==> s[k] == old(s[k])
    {
      s[i] := XorByte(s[i], rk[off + i]);
    }
  }

  method SubBytesCt(s: array<Byte>)
    requires s.Length == 16
    modifies s
    ensures s[..] == SubBytes(old(s[..]))
  {
    hide Sbox;
    for i := 0 to 16
      invariant forall k :: 0 <= k < i ==> s[k] == Sbox(old(s[k]))
      invariant forall k :: i <= k < 16 ==> s[k] == old(s[k])
    {
      s[i] := SboxCt(s[i]);
    }
  }

  /** Where byte i of the state comes from. */
  function RowSource(i: nat): nat {
    (i + 4 * (i % 4)) % 16
  }

  /** Byte i has been copied once rows below r and c bytes of row r are done. */
  predicate Copied(i: nat, r: nat, c: nat) {
    i % 4 < r || (i % 4 == r && i < 4 * c)
  }

  lemma CopyStep(i: nat, r: nat, c: nat)
    requires i < 16 && r < 4 && c < 4
    ensures RowSource(4 * c + r) == 4 * ((c + r) % 4) + r
    ensures Copied(i, r, c + 1) <==> Copied(i, r, c) || i == 4 * c + r
    ensures Copied(i, r, 4) <==> Copied(i, r + 1, 0)
  {
    RowUp(c, r);
  }

  /** Row r rotates left by r, through a temporary. */
  method ShiftRowsCt(s: array<Byte>)
    requires s.Length == 16
    modifies s
    ensures s[..] == ShiftRows(old(s[..]))
  {
    hide Copied, RowSource;
    ghost var was := s[..];
    var t := new Byte[16];
    assert forall i: nat :: i < 16 ==> !Copied(i, 0, 0) by { NoneCopied(); }
    SourceInRange();
    for r := 0 to 4
      invariant s[..] == was
      invariant forall i: nat :: i < 16 && Copied(i, r, 0) ==> t[i] == was[RowSource(i)]
    {
      for c := 0 to 4
        invariant s[..] == was
        invariant forall i: nat :: i < 16 && Copied(i, r, c) ==> t[i] == was[RowSource(i)]
      {
        forall i: nat | i < 16 ensures Copied(i, r, c + 1) <==> Copied(i, r, c) || i == 4 * c + r {
          CopyStep(i, r, c);
        }
        CopyStep(0, r, c);
        t[4 * c + r] := s[4 * ((c + r) % 4) + r];
      }
      forall i: nat | i < 16 && Copied(i, r + 1, 0) ensures Copied(i, r, 4) {
        CopyStep(i, r, 0);
      }
    }
    forall i: nat | i < 16 ensures t[i] == ShiftRows(was)[i] {
      AllCopied(i);
    }
    assert t[..] == ShiftRows(was);
    CopyBlock(t, s);
  }

  lemma NoneCopied()
    ensures forall i: nat :: i < 16 ==> !Copied(i, 0, 0)
  {
  }

  lemma SourceInRange()
    ensures forall i: nat :: RowSource(i) < 16
  {
  }

  lemma AllCopied(i: nat)
    requires i < 16
    ensures Copied(i, 4, 0) && RowSource(i) == (i + 4 * (i % 4)) % 16
  {
  }

  method CopyBlock(t: array<Byte>, s: array<Byte>)
    requires t.Length == 16 && s.Length == 16
    modifies s
    ensures s[..] == old(t[..])
  {
    ghost var was := t[..];
    for i := 0 to 16
      invariant forall k :: 0 <= k < i ==> s[k] == was[k]
      invariant forall k :: i <= k < 16 ==> t[k] == was[k]
    {
      s[i] := t[i];
    }
  }

  lemma LeftSum(a: Byte, b: Byte, c: Byte, d: Byte)
    ensures XorByte(XorByte(XorByte(a, b), c), d) == Sum4(a, b, c, d)
  {
    hide XorByte;
    XorAssociates(XorByte(a, b), c, d);
  }

  /** The four rows of the matrix. */
  lemma MixRows(col: Word)
    ensures Row(MIX, col, 0) == Sum4(Mul(2, col[0]), Mul(3, col[1]), Mul(1, col[2]), Mul(1, col[3]))
    ensures Row(MIX, col, 1) == Sum4(Mul(1, col[0]), Mul(2, col[1]), Mul(3, col[2]), Mul(1, col[3]))
    ensures Row(MIX, col, 2) == Sum4(Mul(1, col[0]), Mul(1, col[1]), Mul(2, col[2]), Mul(3, col[3]))
    ensures Row(MIX, col, 3) == Sum4(Mul(3, col[0]), Mul(1, col[1]), Mul(1, col[2]), Mul(2, col[3]))
  {
    hide Mul, Sum4;
  }

  /** One column, with doublings and additions only. */
  function ColumnCt(a0: Byte, a1: Byte, a2: Byte, a3: Byte): Word {
    [XorByte(XorByte(XorByte(XtimeCt(a0), XorByte(XtimeCt(a1), a1)), a2), a3),
     XorByte(XorByte(XorByte(a0, XtimeCt(a1)), XorByte(XtimeCt(a2), a2)), a3),
     XorByte(XorByte(XorByte(a0, a1), XtimeCt(a2)), XorByte(XtimeCt(a3), a3)),
     XorByte(XorByte(XorByte(XorByte(XtimeCt(a0), a0), a1), a2), XtimeCt(a3))]
  }

  lemma ColumnCtIsMix(col: Word)
    ensures ColumnCt(col[0], col[1], col[2], col[3]) == MixColumn(MIX, col)
  {
    hide Mul, XtimeCt, XorByte, Row, Sum4;
    var a0, a1, a2, a3 := col[0], col[1], col[2], col[3];
    SmallProducts(a0);
    SmallProducts(a1);
    SmallProducts(a2);
    SmallProducts(a3);
    MixRows(col);
    LeftSum(XtimeCt(a0), XorByte(XtimeCt(a1), a1), a2, a3);
    LeftSum(a0, XtimeCt(a1), XorByte(XtimeCt(a2), a2), a3);
    LeftSum(a0, a1, XtimeCt(a2), XorByte(XtimeCt(a3), a3));
    LeftSum(XorByte(XtimeCt(a0), a0), a1, a2, XtimeCt(a3));
  }

  /** The state with column k replaced. */
  function Overlay(s: Block, k: nat, w: Word): Block
    requires k < 4
  {
    var before: Bytes := s[..4 * k];
    before + w + s[4 * k + 4..]
  }

  /** The state with its first n columns mixed. */
  function MixedTo(s: Block, n: nat): Block
    requires n <= 4
  {
    hide *;
    if n == 0 then s else Overlay(MixedTo(s, n - 1), n - 1, MixColumn(MIX, Column(s, n - 1)))
  }

  lemma {:induction false} MixedToKeeps(s: Block, n: nat)
    requires n <= 4
    ensures MixedTo(s, n)[4 * n..] == s[4 * n..]
  {
    hide MixColumn;
    if n != 0 {
      MixedToKeeps(s, n - 1);
      var t := MixedTo(s, n - 1);
      assert t[4 * n..] == t[4 * n - 4..][4..] && s[4 * n..] == s[4 * n - 4..][4..];
    }
  }

  lemma MixedToAll(s: Block)
    ensures MixedTo(s, 4) == MixColumns(s)
  {
    hide MixColumn, Column;
    var c0, c1, c2, c3 := MixColumn(MIX, Column(s, 0)), MixColumn(MIX, Column(s, 1)), MixColumn(MIX, Column(s, 2)), MixColumn(MIX, Column(s, 3));
    var s2 := MixedTo(s, 2);
    assert MixedTo(s, 1)[..4] == c0;
    assert s2[..4] == c0 && s2[4..8] == c1;
    var s4 := MixedTo(s, 4);
    assert MixedTo(s, 3)[..8] == s2[..8] && MixedTo(s, 3)[8..12] == c2;
    assert s4[..8] == s2[..8] && s4[8..12] == c2 && s4[12..] == c3;
    assert s4 == s4[..4] + s4[4..8] + s4[8..12] + s4[12..];
  }

  method MixOneColumn(s: array<Byte>, k: nat)
    requires s.Length == 16 && k < 4
    modifies s
    ensures s[..] == Overlay(old(s[..]), k, MixColumn(MIX, Column(old(s[..]), k)))
  {
    hide MixColumn, XtimeCt, XorByte, ColumnCt, Column, Overlay;
    ghost var was: Block := s[..];
    var p := 4 * k;
    var a0, a1, a2, a3 := s[p], s[p + 1], s[p + 2], s[p + 3];
    ColumnIs(was, k);
    ColumnCtIsMix(Column(was, k));
    var q := ColumnCt(a0, a1, a2, a3);
    s[p], s[p + 1], s[p + 2], s[p + 3] := q[0], q[1], q[2], q[3];
    OverlayIs(was, s[..], k, q);
  }

  lemma ColumnIs(s: Block, k: nat)
    requires k < 4
    ensures Column(s, k) == [s[4 * k], s[4 * k + 1], s[4 * k + 2], s[4 * k + 3]]
  {
  }

  lemma OverlayIs(s: Block, t: Block, k: nat, w: Word)
    requires k < 4
    requires forall i :: 0 <= i < 16 ==> t[i] == if 4 * k <= i < 4 * k + 4 then w[i - 4 * k] else s[i]
    ensures t == Overlay(s, k, w)
  {
  }

  method MixColumnsCt(s: array<Byte>)
    requires s.Length == 16
    modifies s
    ensures s[..] == MixColumns(old(s[..]))
  {
    hide MixColumn, MixColumns, Overlay;
    ghost var was: Block := s[..];
    for c := 0 to 4
      invariant s[..] == MixedTo(was, c)
    {
      MixedToKeeps(was, c);
      ghost var t: Block := s[..];
      assert Column(t, c) == t[4 * c..][..4] == was[4 * c..][..4] == Column(was, c);
      MixOneColumn(s, c);
    }
    MixedToAll(was);
  }

  // ----- key expansion and encryption on arrays -----

  const RCON: seq<Byte> := [0x00, 0x01, 0x02, 0x04, 0x08, 0x10, 0x20, 0x40]

  lemma TimesTwo(a: Byte)
    ensures Mul(a, 2) == Double(a)
  {
    hide Double, MulFrom;
    TwoAndThree();
    MulDouble(a, 1);
    MulOne(a);
  }

  lemma Doublings()
    ensures Double(1) == 2 && Double(2) == 4 && Double(4) == 8 && Double(8) == 16 && Double(16) == 32 && Double(32) == 64
  {
  }

  lemma RconNext(k: nat)
    requires 1 <= k
    ensures Rcon(k + 1) == Double(Rcon(k))
  {
    hide Rcon, Mul, Double;
    NextRcon(k);
    TimesTwo(Rcon(k));
  }

  /** The table of round constants holds the powers of two. */
  lemma RconTable(k: nat)
    requires k < 8
    ensures RCON[k] == Rcon(k)
  {
    hide Rcon, Double;
    RconZero();
    FirstRcon();
    RconNext(1);
    RconNext(2);
    RconNext(3);
    RconNext(4);
    RconNext(5);
    RconNext(6);
    Doublings();
  }

  lemma RconZero()
    ensures Rcon(0) == 0
  {
  }

  method SubWordCt(w: Word) returns (u: Word)
    ensures u == SubWord(w)
  {
    hide Sbox;
    var a := SboxCt(w[0]);
    var b := SboxCt(w[1]);
    var c := SboxCt(w[2]);
    var d := SboxCt(w[3]);
    u := [a, b, c, d];
  }

  /** The bytes of the first n key words. */
  function KeyBytes(key: Key, n: nat): (s: Bytes)
    requires n <= 60
    ensures |s| == 4 * n
  {
    if n == 0 then [] else KeyBytes(key, n - 1) + KeyWord(key, n - 1)
  }

  method KeyExpand(key: Key, rk: array<Byte>)
    requires rk.Length == 240
    modifies rk
    ensures rk[..] == KeyBytes(key, 60)
  {
    hide Sbox, SubWord, Pow, XorBytes, XorByte, KeyWord, Rcon;
    var w := new Word[60];
    for i := 0 to 8
      invariant forall k :: 0 <= k < i ==> w[k] == KeyWord(key, k)
    {
      FirstWord(key, i);
      w[i] := key[4 * i..4 * i + 4];
    }
    for i := 8 to 60
      invariant forall k :: 0 <= k < i ==> w[k] == KeyWord(key, k)
    {
      var t := w[i - 1];
      if i % 8 == 0 {
        t := SubWordCt(RotWord(t));
        RconTable(i / 8);
        t := t[0 := XorByte(t[0], RCON[i / 8])];
      } else if i % 8 == 4 {
        t := SubWordCt(t);
      }
      assert t == Scrambled(KeyWord(key, i - 1), i);
      NextWord(key, i);
      w[i] := XorBytes(w[i - 8], t);
    }
    WriteWords(key, w, rk);
  }

  method WriteWords(key: Key, w: array<Word>, rk: array<Byte>)
    requires w.Length == 60 && rk.Length == 240 && forall k :: 0 <= k < 60 ==> w[k] == KeyWord(key, k)
    modifies rk
    ensures rk[..] == KeyBytes(key, 60)
  {
    hide KeyWord;
    assert rk[..0] == [];
    for i := 0 to 60
      invariant rk[..4 * i] == KeyBytes(key, i)
    {
      ghost var done := rk[..4 * i];
      rk[4 * i], rk[4 * i + 1], rk[4 * i + 2], rk[4 * i + 3] := w[i][0], w[i][1], w[i][2], w[i][3];
      assert rk[..4 * (i + 1)] == done + w[i];
    }
    assert rk[..240] == rk[..];
  }

  lemma {:induction false} KeyBytesAt(key: Key, n: nat, k: nat)
    requires k < n <= 60
    ensures KeyBytes(key, n)[4 * k..4 * k + 4] == KeyWord(key, k)
    decreases n
  {
    hide KeyWord;
    if k != n - 1 {
      KeyBytesAt(key, n - 1, k);
      assert KeyBytes(key, n)[4 * k..4 * k + 4] == KeyBytes(key, n - 1)[4 * k..4 * k + 4];
    }
  }

  lemma FourPieces(s: Bytes, p: nat)
    requires p + 16 <= |s|
    ensures s[p..p + 16] == s[p..p + 4] + s[p + 4..p + 8] + s[p + 8..p + 12] + s[p + 12..p + 16]
  {
  }

  lemma RoundKeyBytes(key: Key, r: nat)
    requires r < 15
    ensures KeyBytes(key, 60)[16 * r..16 * r + 16] == RoundKey(key, r)
  {
    hide KeyWord, KeyBytes;
    var s := KeyBytes(key, 60);
    RoundKeyIs(key, r);
    KeyBytesAt(key, 60, 4 * r);
    KeyBytesAt(key, 60, 4 * r + 1);
    KeyBytesAt(key, 60, 4 * r + 2);
    KeyBytesAt(key, 60, 4 * r + 3);
    FourPieces(s, 16 * r);
  }

  /** The branch-free encryption is the one that decryption inverts. */
  method EncryptCt(key: Key, inp: array<Byte>, out: array<Byte>)
    requires inp.Length == 16 && out.Length == 16
    modifies out
    ensures out[..] == Encrypt(RoundKeysOf(key), old(inp[..]))
  {
    hide XorBytes, SubBytes, ShiftRows, MixColumns, RoundKey, KeyBytes;
    ghost var block: Block := inp[..];
    ghost var keys := RoundKeysOf(key);
    var rk := new Byte[240];
    var s := new Byte[16];
    KeyExpand(key, rk);
    ghost var bytes := rk[..];
    CopyBlock(inp, s);
    RoundKeyBytes(key, 0);
    AddRoundKey(s, rk, 0);
    assert rk[0..0 + 16] == bytes[0..16];
    for round := 1 to 14
      invariant rk[..] == bytes && s[..] == Forward(keys, block, round - 1)
    {
      SubBytesCt(s);
      ShiftRowsCt(s);
      MixColumnsCt(s);
      RoundKeyBytes(key, round);
      assert rk[16 * round..16 * round + 16] == bytes[16 * round..16 * round + 16];
      AddRoundKey(s, rk, 16 * round);
    }
    SubBytesCt(s);
    ShiftRowsCt(s);
    RoundKeyBytes(key, 14);
    assert rk[16 * 14..16 * 14 + 16] == bytes[16 * 14..16 * 14 + 16];
    AddRoundKey(s, rk, 16 * 14);
    CopyBlock(s, out);
  }
}
