/** HCTR2: a wide-block cipher from a block cipher in counter mode and the
    POLYVAL hash.  The block cipher is any pair of functions on blocks. */
module Hctr2 {
  import opened PowersOfTwo
  import opened GfDot
  import opened Blocks
  import opened Wrappers

  // ----- bits of bytes -----

  function ByteBit(b: Byte, j: nat): bool
    requires j < 8
  {
    (b >> j) & 1 != 0
  }

  function ToBits(s: Bytes): (f: Bits)
    ensures |f| == 8 * |s|
  {
    seq(8 * |s|, j requires 0 <= j < 8 * |s| => ByteBit(s[j / 8], j % 8))
  }

  function ByteFrom(f: Bits, i: nat): Byte
    requires i + 8 <= |f|
  {
    (if f[i] then 1 else 0) | (if f[i + 1] then 2 else 0) | (if f[i + 2] then 4 else 0)
    | (if f[i + 3] then 8 else 0) | (if f[i + 4] then 16 else 0) | (if f[i + 5] then 32 else 0)
    | (if f[i + 6] then 64 else 0) | (if f[i + 7] then 128 else 0)
  }

  function FromBits(f: Bits128): (b: Block)
  {
    seq(16, i requires 0 <= i < 16 => ByteFrom(f, 8 * i))
  }

  // ----- POLYVAL -----

  function BlockAt(s: Bytes, i: nat): Block
    requires 16 * i + 16 <= |s|
  {
    s[16 * i..16 * i + 16]
  }

  /** The POLYVAL accumulator after n blocks. */
  function Accumulated(key: Bits128, s: Bytes, n: nat): Bits128
    requires 16 * n <= |s|
  {
    if n == 0 then Zero(128)
    else Dot(Xor(Accumulated(key, s, n - 1), ToBits(BlockAt(s, n - 1))), key)
  }

  function PolyvalHash(hbar: Block, s: Bytes): Block
    requires |s| % 16 == 0
  {
    FromBits(Accumulated(ToBits(hbar), s, |s| / 16))
  }

  // ----- the mode on byte strings -----

  function PadLength(n: nat): (p: nat)
    ensures p <= 15 && (n + p) % 16 == 0
  {
    (16 - n % 16) % 16
  }

  lemma WholeBlocks(a: nat, b: nat)
    requires a % 16 == 0 && b % 16 == 0
    ensures (16 + a + b) % 16 == 0
  {
  }

  function Pad(s: Bytes): (t: Bytes)
    ensures |t| % 16 == 0
  {
    s + Zeros(PadLength(|s|))
  }

  /** What is hashed: lengths, the padded tweak, and the message, marked with a
      one byte when it does not fill its last block. */
  function HashInput(tweak: Bytes, msg: Bytes): (s: Bytes)
    ensures |s| % 16 == 0
  {
    hide *;
    var rem := if |msg| % 16 != 0 then 1 else 0;
    var body := if rem == 0 then msg else Pad(msg + [1]);
    WholeBlocks(|Pad(tweak)|, |body|);
    LittleEndian(8 * |tweak| * 2 + 2 + rem, 16) + Pad(tweak) + body
  }

  function Hbar(c: Cipher): Block {
    c.enc(Zeros(16))
  }

  function Ell(c: Cipher): Block {
    c.enc(LittleEndian(1, 16))
  }

  function HashOf(c: Cipher, tweak: Bytes, msg: Bytes): Block {
    PolyvalHash(Hbar(c), HashInput(tweak, msg))
  }

  /** Byte j of the keystream: block i, counted from 1, encrypts s xor i. */
  function KeyByte(c: Cipher, s: Block, j: nat): Byte {
    c.enc(XorBytes(s, LittleEndian(j / 16 + 1, 16)))[j % 16]
  }

  function Xctr(c: Cipher, s: Block, n: nat): (k: Bytes)
    ensures |k| == n && forall j :: 0 <= j < n ==> k[j] == KeyByte(c, s, j)
  {
    seq(n, j requires 0 <= j < n => KeyByte(c, s, j))
  }

  function Separator(c: Cipher, mm: Block, uu: Block): Block {
    XorBytes(XorBytes(mm, uu), Ell(c))
  }

  /** hctr2_encrypt; nothing where the source's assertion fails. */
  function Encrypt(c: Cipher, tweak: Bytes, pt: Bytes): (r: Option<Bytes>)
    ensures r.Some? <==> |pt| >= 16
    ensures r.Some? ==> |r.value| == |pt|
  {
    if |pt| < 16 then None
    else
      var m, n := pt[..16], pt[16..];
      var mm: Block := XorBytes(m, HashOf(c, tweak, n));
      var uu := c.enc(mm);
      var v := XorBytes(n, Xctr(c, Separator(c, mm, uu), |n|));
      Some(XorBytes(uu, HashOf(c, tweak, v)) + v)
  }

  function Decrypt(c: Cipher, tweak: Bytes, ct: Bytes): (r: Option<Bytes>)
    ensures r.Some? <==> |ct| >= 16
    ensures r.Some? ==> |r.value| == |ct|
  {
    if |ct| < 16 then None
    else
      var u, v := ct[..16], ct[16..];
      var uu: Block := XorBytes(u, HashOf(c, tweak, v));
      var mm := c.dec(uu);
      var n := XorBytes(v, Xctr(c, Separator(c, mm, uu), |v|));
      Some(XorBytes(mm, HashOf(c, tweak, n)) + n)
  }

  /** Decryption inverts encryption for every tweak and message, whatever the
      hash and the keystream are. */
  lemma DecryptEncrypt(c: Cipher, tweak: Bytes, pt: Bytes)
    requires Permutation(c) && |pt| >= 16
    ensures Decrypt(c, tweak, Encrypt(c, tweak, pt).value) == Some(pt)
  {
    hide HashOf, Separator, XorBytes, Xctr;
    var m, n := pt[..16], pt[16..];
    var mm: Block := XorBytes(m, HashOf(c, tweak, n));
    var uu := c.enc(mm);
    var stream := Xctr(c, Separator(c, mm, uu), |n|);
    var v := XorBytes(n, stream);
    var ct := Encrypt(c, tweak, pt).value;
    assert ct[..16] == XorBytes(uu, HashOf(c, tweak, v)) && ct[16..] == v;
    XorTwice(uu, HashOf(c, tweak, v));
    XorTwice(n, stream);
    XorTwice(m, HashOf(c, tweak, n));
    assert pt == m + n;
  }

  /** Encryption inverts decryption, so both are permutations of their length. */
  lemma EncryptDecrypt(c: Cipher, tweak: Bytes, ct: Bytes)
    requires Permutation(c) && |ct| >= 16
    ensures Encrypt(c, tweak, Decrypt(c, tweak, ct).value) == Some(ct)
  {
    hide HashOf, Separator, XorBytes, Xctr;
    var u, v := ct[..16], ct[16..];
    var uu: Block := XorBytes(u, HashOf(c, tweak, v));
    var mm := c.dec(uu);
    var stream := Xctr(c, Separator(c, mm, uu), |v|);
    var n := XorBytes(v, stream);
    var pt := Decrypt(c, tweak, ct).value;
    assert pt[..16] == XorBytes(mm, HashOf(c, tweak, n)) && pt[16..] == n;
    XorTwice(mm, HashOf(c, tweak, n));
    XorTwice(v, stream);
    XorTwice(u, HashOf(c, tweak, v));
    assert ct == u + v;
  }

  /** The counter loop: whole blocks are appended, then the tail is cut off. */
  method XctrBytes(c: Cipher, s: Block, n: nat) returns (out: Bytes)
    ensures out == Xctr(c, s, n)
  {
    hide LittleEndian, XorBytes;
    var blocks: Bytes := [];
    var i := 1;
    while |blocks| < n
      invariant 1 <= i && |blocks| == 16 * (i - 1)
      invariant blocks == Xctr(c, s, |blocks|)
      decreases n - |blocks|
    {
      ghost var was := |blocks|;
      var k := c.enc(XorBytes(s, LittleEndian(i, 16)));
      forall j | 0 <= j < 16 ensures k[j] == KeyByte(c, s, was + j) {
        assert (was + j) / 16 + 1 == i && (was + j) % 16 == j;
      }
      blocks := blocks + k;
      i := i + 1;
    }
    out := blocks[..n];
  }

  // ----- the hash input is unambiguous -----

  /** The one byte marks where a padded message ends. */
  lemma MarkedInjective(m: Bytes, n: Bytes)
    requires Pad(m + [1]) == Pad(n + [1])
    ensures m == n
  {
    hide Pad;
    MarkIsLast(m);
    MarkIsLast(n);
  }

  lemma MarkIsLast(m: Bytes)
    ensures var s := Pad(m + [1]);
            |m| < |s| && s[..|m|] == m && s[|m|] == 1 && forall k :: |m| < k < |s| ==> s[k] == 0
  {
    hide PadLength;
    var s := Pad(m + [1]);
    assert s == m + [1] + Zeros(PadLength(|m| + 1));
  }

  /** Different pairs of tweak and message are never hashed as one string. */
  lemma HashInputInjective(t: Bytes, m: Bytes, u: Bytes, n: Bytes)
    requires 16 * |t| + 3 < Pow2(128) && 16 * |u| + 3 < Pow2(128)
    requires HashInput(t, m) == HashInput(u, n)
    ensures t == u && m == n
  {
    hide LittleEndian, Pow2, Pad;
    var rm, rn := if |m| % 16 != 0 then 1 else 0, if |n| % 16 != 0 then 1 else 0;
    var s := HashInput(t, m);
    var x, y := 8 * |t| * 2 + 2 + rm, 8 * |u| * 2 + 2 + rn;
    var xt, yu := if rm == 0 then m else Pad(m + [1]), if rn == 0 then n else Pad(n + [1]);
    assert s == LittleEndian(x, 16) + Pad(t) + xt == LittleEndian(y, 16) + Pad(u) + yu;
    assert s[..16] == LittleEndian(x, 16) && s[..16] == LittleEndian(y, 16);
    LittleEndianInjective(x, y, 16);
    assert |t| == |u| && rm == rn;
    PadStart(t);
    PadStart(u);
    var b := 16 + |Pad(t)|;
    assert s[16..b] == Pad(t) && s[16..b] == Pad(u);
    assert s[b..] == xt && s[b..] == yu;
    if rm == 1 {
      MarkedInjective(m, n);
    }
  }

  lemma PadStart(s: Bytes)
    ensures |Pad(s)| == |s| + PadLength(|s|) && Pad(s)[..|s|] == s
  {
  }
}
