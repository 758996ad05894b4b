/** Adiantum: a wide-block cipher from a stream, a hash and one block-cipher
    call, with 128-bit little-endian addition.  Stream and hash are arbitrary. */
module Adiantum {
  import opened Blocks
  import opened ModArith
  import opened PowersOfTwo

  /** The block cipher, byte j of the stream for a nonce, and the hash of tweak
      and message. */
  datatype Keys = Keys(cipher: Cipher, stream: (Bytes, nat) -> Byte, hash: (Bytes, Bytes) -> Block)

  // ----- 128-bit little-endian numbers -----

  function Number(s: Bytes): (n: nat) {
    if s == [] then 0 else Value(s[0]) + 256 * Number(s[1..])
  }

  /** Byte-wise addition with a carry coming in. */
  function AddFrom(a: Bytes, b: Bytes, carry: nat): (s: Bytes)
    requires |a| == |b|
    ensures |s| == |a|
  {
    if a == [] then []
    else
      var sum := carry + Value(a[0]) + Value(b[0]);
      [Low(sum)] + AddFrom(a[1..], b[1..], sum / 256)
  }

  /** Byte-wise subtraction with a borrow. */
  function SubFrom(a: Bytes, b: Bytes, borrow: nat): (s: Bytes)
    requires |a| == |b|
    ensures |s| == |a|
  {
    if a == [] then []
    else
      var d := Value(a[0]) - Value(b[0]) - borrow;
      [Low(d)] + SubFrom(a[1..], b[1..], if d < 0 then 1 else 0)
  }

  /** The carry that leaves the top byte. */
  function CarryOut(a: Bytes, b: Bytes, carry: nat): nat
    requires |a| == |b|
  {
    if a == [] then carry else CarryOut(a[1..], b[1..], (carry + Value(a[0]) + Value(b[0])) / 256)
  }

  lemma {:induction false} AddFromIsSum(a: Bytes, b: Bytes, carry: nat)
    requires |a| == |b|
    ensures Number(AddFrom(a, b, carry)) + CarryOut(a, b, carry) * Pow2(8 * |a|) == Number(a) + Number(b) + carry
  {
    hide Low, Value;
    if a == [] {
      Pow2Zero();
    } else {
      var sum := carry + Value(a[0]) + Value(b[0]);
      var c, s := sum / 256, AddFrom(a, b, carry);
      AddFromIsSum(a[1..], b[1..], c);
      ValueOfLow(sum);
      assert s[1..] == AddFrom(a[1..], b[1..], c);
      var out, p := CarryOut(a, b, carry), Pow2(8 * (|a| - 1));
      PowStep(|a|);
      Associate(out, 256, p);
      assert sum == 256 * c + sum % 256;
    }
  }

  lemma PowStep(n: nat)
    requires 1 <= n
    ensures Pow2(8 * n) == 256 * Pow2(8 * (n - 1))
  {
    hide Pow2;
    Pow2Small();
    var m := 8 * (n - 1);
    assert 8 * n == 8 + m;
    Pow2Add(8, m);
  }

  lemma {:induction false} NumberBelow(s: Bytes)
    ensures Number(s) < Pow2(8 * |s|)
  {
    if s == [] {
      Pow2Zero();
    } else {
      NumberBelow(s[1..]);
      PowStep(|s|);
    }
  }

  /** Addition of blocks is addition modulo 2^128. */
  function Add128(a: Block, b: Block): Block {
    AddFrom(a, b, 0)
  }

  function Sub128(a: Block, b: Block): Block {
    SubFrom(a, b, 0)
  }

  lemma AddIsModular(a: Block, b: Block)
    ensures Number(Add128(a, b)) == (Number(a) + Number(b)) % Pow2(128)
  {
    hide AddFrom, Number, CarryOut, Pow2;
    AddFromIsSum(a, b, 0);
    NumberBelow(Add128(a, b));
    DivModUnique(Number(a) + Number(b), Pow2(128), CarryOut(a, b, 0), Number(Add128(a, b)));
  }

  lemma DigitBack(x: nat, y: nat, c: nat)
    requires x < 256 && y < 256 && c <= 1
    ensures var sum := c + x + y; var d := sum % 256 - y - c;
            sum / 256 <= 1 && (d < 0 <==> sum / 256 == 1) && d % 256 == x
  {
    var sum := c + x + y;
    var q := sum / 256;
    assert sum == 256 * q + sum % 256;
    DivModUnique(sum % 256 - y - c, 256, 0 - q, x);
  }

  lemma AddStep(a: Bytes, b: Bytes, c: nat)
    requires |a| == |b| > 0
    ensures var sum := c + Value(a[0]) + Value(b[0]); var s := AddFrom(a, b, c);
            s[0] == Low(sum) && s[1..] == AddFrom(a[1..], b[1..], sum / 256)
  {
    hide Low, Value;
  }

  lemma SubStep(a: Bytes, b: Bytes, c: nat)
    requires |a| == |b| > 0
    ensures var d := Value(a[0]) - Value(b[0]) - c; var s := SubFrom(a, b, c);
            s[0] == Low(d) && s[1..] == SubFrom(a[1..], b[1..], if d < 0 then 1 else 0)
  {
    hide Low, Value;
  }

  /** Subtracting meets a borrow exactly where adding left a carry. */
  lemma {:induction false} SubUndoesAdd(a: Bytes, b: Bytes, c: nat)
    requires |a| == |b| && c <= 1
    ensures SubFrom(AddFrom(a, b, c), b, c) == a
  {
    hide Low, Value, AddFrom, SubFrom;
    if a != [] {
      var x, y := Value(a[0]), Value(b[0]);
      var sum, s := c + x + y, AddFrom(a, b, c);
      AddStep(a, b, c);
      SubStep(s, b, c);
      ValueOfLow(sum);
      DigitBack(x, y, c);
      SubUndoesAdd(a[1..], b[1..], sum / 256);
      SmallRemainder(x);
      LowCongruent(sum % 256 - y - c, x);
      LowOfValue(a[0]);
      var t := SubFrom(s, b, c);
      assert t == [t[0]] + t[1..] && a == [a[0]] + a[1..];
    }
  }

  lemma DigitForth(x: nat, y: nat, c: nat)
    requires x < 256 && y < 256 && c <= 1
    ensures var d := x - y - c; var borrow := if d < 0 then 1 else 0;
            (c + d % 256 + y) / 256 == borrow && (c + d % 256 + y) % 256 == x
  {
    var d := x - y - c;
    var borrow := if d < 0 then 1 else 0;
    DivModUnique(d, 256, 0 - borrow, d + 256 * borrow);
    DivModUnique(c + d % 256 + y, 256, borrow, x);
  }

  /** And the other way round. */
  lemma {:induction false} AddUndoesSub(a: Bytes, b: Bytes, c: nat)
    requires |a| == |b| && c <= 1
    ensures AddFrom(SubFrom(a, b, c), b, c) == a
  {
    hide Low, Value, AddFrom, SubFrom;
    if a != [] {
      var x, y := Value(a[0]), Value(b[0]);
      var d, s := x - y - c, SubFrom(a, b, c);
      SubStep(a, b, c);
      AddStep(s, b, c);
      ValueOfLow(d);
      DigitForth(x, y, c);
      AddUndoesSub(a[1..], b[1..], if d < 0 then 1 else 0);
      SmallRemainder(x);
      LowCongruent(c + d % 256 + y, x);
      LowOfValue(a[0]);
      var t := AddFrom(s, b, c);
      assert t == [t[0]] + t[1..] && a == [a[0]] + a[1..];
    }
  }

  lemma LowCongruent(x: int, y: int)
    requires x % 256 == y % 256
    ensures Low(x) == Low(y)
  {
  }

  lemma AddSubInverse(a: Block, b: Block)
    ensures Sub128(Add128(a, b), b) == a && Add128(Sub128(a, b), b) == a
  {
    hide AddFrom, SubFrom;
    SubUndoesAdd(a, b, 0);
    AddUndoesSub(a, b, 0);
  }

  // ----- the mode -----

  /** The last 16 bytes and what comes before, as the slices [-16:] and [:-16]
      take them; a shorter message is all tail. */
  function Head(s: Bytes): Bytes {
    if |s| < 16 then [] else s[..|s| - 16]
  }

  /** The tail as a 128-bit number, so a short one reads as padded. */
  function Tail(s: Bytes): Block {
    if |s| < 16 then s + Zeros(16 - |s|) else s[|s| - 16..]
  }

  function Nonce(cm: Block): Bytes {
    cm + [1] + Zeros(7)
  }

  function Stream(k: Keys, nonce: Bytes, n: nat): (s: Bytes)
    ensures |s| == n && forall j :: 0 <= j < n ==> s[j] == k.stream(nonce, j)
  {
    seq(n, j requires 0 <= j < n => k.stream(nonce, j))
  }

  function Encrypt(k: Keys, tweak: Bytes, pt: Bytes): (ct: Bytes)
    ensures |ct| == if |pt| < 16 then 16 else |pt|
  {
    var pl := Head(pt);
    var pm := Add128(Tail(pt), k.hash(tweak, pl));
    var cm := k.cipher.enc(pm);
    var cl := XorBytes(pl, Stream(k, Nonce(cm), |pl|));
    cl + Sub128(cm, k.hash(tweak, cl))
  }

  function Decrypt(k: Keys, tweak: Bytes, ct: Bytes): (pt: Bytes)
    ensures |pt| == if |ct| < 16 then 16 else |ct|
  {
    var cl := Head(ct);
    var cm := Add128(Tail(ct), k.hash(tweak, cl));
    var pl := XorBytes(cl, Stream(k, Nonce(cm), |cl|));
    var pm := k.cipher.dec(cm);
    pl + Sub128(pm, k.hash(tweak, pl))
  }

  lemma HeadTail(a: Bytes, b: Block)
    ensures Head(a + b) == a && Tail(a + b) == b
  {
  }

  lemma Rejoin(s: Bytes)
    requires |s| >= 16
    ensures Head(s) + Tail(s) == s
  {
  }

  /** What decryption makes of a ciphertext: the message with its tail padded. */
  lemma DecryptOfEncrypt(k: Keys, tweak: Bytes, pt: Bytes)
    requires Permutation(k.cipher)
    ensures Decrypt(k, tweak, Encrypt(k, tweak, pt)) == Head(pt) + Tail(pt)
  {
    hide Add128, Sub128, XorBytes, Stream, Nonce, Head, Tail;
    var pl := Head(pt);
    var h := k.hash(tweak, pl);
    var pm := Add128(Tail(pt), h);
    var cm := k.cipher.enc(pm);
    var stream := Stream(k, Nonce(cm), |pl|);
    var cl := XorBytes(pl, stream);
    var g := k.hash(tweak, cl);
    HeadTail(cl, Sub128(cm, g));
    AddSubInverse(cm, g);
    XorTwice(pl, stream);
    AddSubInverse(Tail(pt), h);
  }

  /** Decryption inverts encryption exactly on messages of at least a block. */
  lemma DecryptEncryptIff(k: Keys, tweak: Bytes, pt: Bytes)
    requires Permutation(k.cipher)
    ensures Decrypt(k, tweak, Encrypt(k, tweak, pt)) == pt <==> |pt| >= 16
  {
    hide Encrypt, Decrypt;
    DecryptOfEncrypt(k, tweak, pt);
    if |pt| >= 16 {
      Rejoin(pt);
    }
  }

  /** Encryption: the last block plus the hash of the rest is enciphered; the
      result, a one byte and seven zeros select the stream that is added to the
      rest; the hash of that is subtracted from the enciphered block. */
  lemma EncryptEquations(k: Keys, tweak: Bytes, pt: Bytes, cm: Block)
    requires |pt| >= 16
    requires cm == k.cipher.enc(Add128(pt[|pt| - 16..], k.hash(tweak, pt[..|pt| - 16])))
    ensures var n, ct := |pt| - 16, Encrypt(k, tweak, pt);
      && (forall j :: 0 <= j < n ==> ct[j] == XorByte(pt[j], k.stream(cm + [1, 0, 0, 0, 0, 0, 0, 0], j)))
      && ct[n..] == Sub128(cm, k.hash(tweak, ct[..n]))
  {
    hide Add128, Sub128, XorByte;
    var nonce: Bytes := cm + [1, 0, 0, 0, 0, 0, 0, 0];
    assert Nonce(cm) == nonce;
    var pl := pt[..|pt| - 16];
    assert Head(pt) == pl && Tail(pt) == pt[|pt| - 16..];
    var cl := XorBytes(pl, Stream(k, nonce, |pl|));
    assert Encrypt(k, tweak, pt)[..|pl|] == cl;
  }

  /** Encryption inverts decryption, so both are permutations of their length. */
  lemma EncryptDecrypt(k: Keys, tweak: Bytes, ct: Bytes)
    requires Permutation(k.cipher) && |ct| >= 16
    ensures Encrypt(k, tweak, Decrypt(k, tweak, ct)) == ct
  {
    hide Add128, Sub128, XorBytes, Stream, Nonce, Head, Tail;
    var cl := Head(ct);
    var g := k.hash(tweak, cl);
    var cm := Add128(Tail(ct), g);
    var stream := Stream(k, Nonce(cm), |cl|);
    var pl := XorBytes(cl, stream);
    var pm := k.cipher.dec(cm);
    var h := k.hash(tweak, pl);
    HeadTail(pl, Sub128(pm, h));
    AddSubInverse(pm, h);
    XorTwice(cl, stream);
    AddSubInverse(Tail(ct), g);
    Rejoin(ct);
  }

  // ----- the form over buffers -----

  /** The first n bytes of the sum, and the carry into the next. */
  lemma {:induction false} AddFromAt(a: Bytes, b: Bytes, c: nat, n: nat)
    requires |a| == |b| && n < |a|
    ensures AddFrom(a, b, c)[n] == Low(CarryInto(a, b, c, n) + Value(a[n]) + Value(b[n]))
    decreases n
  {
    hide Low, Value;
    if n != 0 {
      AddFromAt(a[1..], b[1..], (c + Value(a[0]) + Value(b[0])) / 256, n - 1);
    }
  }

  /** The carry into byte n. */
  function CarryInto(a: Bytes, b: Bytes, c: nat, n: nat): nat
    requires |a| == |b| && n <= |a|
    decreases n
  {
    if n == 0 then c else CarryInto(a[1..], b[1..], (c + Value(a[0]) + Value(b[0])) / 256, n - 1)
  }

  lemma {:induction false} CarryNext(a: Bytes, b: Bytes, c: nat, n: nat)
    requires |a| == |b| && n < |a|
    ensures CarryInto(a, b, c, n + 1) == (CarryInto(a, b, c, n) + Value(a[n]) + Value(b[n])) / 256
    decreases n
  {
    hide Value;
    if n != 0 {
      CarryNext(a[1..], b[1..], (c + Value(a[0]) + Value(b[0])) / 256, n - 1);
    }
  }

  /** Addition in place, byte by byte with a carry. */
  method AddInPlace(a: array<Byte>, off: nat, b: Block)
    requires off + 16 <= a.Length
    modifies a
    ensures a[off..off + 16] == Add128(old(a[off..off + 16]), b)
    ensures a[..off] == old(a[..off]) && a[off + 16..] == old(a[off + 16..])
  {
    hide Low, Value, AddFrom, CarryInto;
    ghost var x: Block := a[off..off + 16];
    var carry: nat := 0;
    assert CarryInto(x, b, 0, 0) == 0 by { CarryStart(x, b); }
    for i := 0 to 16
      invariant carry == CarryInto(x, b, 0, i)
      invariant forall k :: 0 <= k < i ==> a[off + k] == AddFrom(x, b, 0)[k]
      invariant forall k :: i <= k < 16 ==> a[off + k] == x[k]
      invariant a[..off] == old(a[..off]) && a[off + 16..] == old(a[off + 16..])
    {
      AddFromAt(x, b, 0, i);
      CarryNext(x, b, 0, i);
      carry := carry + Value(a[off + i]) + Value(b[i]);
      a[off + i] := Low(carry);
      carry := carry / 256;
    }
  }

  lemma CarryStart(a: Bytes, b: Bytes)
    requires |a| == |b|
    ensures CarryInto(a, b, 0, 0) == 0 && BorrowInto(a, b, 0, 0) == 0
  {
  }

  /** The borrow into byte n. */
  function BorrowInto(a: Bytes, b: Bytes, c: nat, n: nat): nat
    requires |a| == |b| && n <= |a|
    decreases n
  {
    if n == 0 then c else BorrowInto(a[1..], b[1..], if Value(a[0]) - Value(b[0]) - c < 0 then 1 else 0, n - 1)
  }

  lemma {:induction false} SubFromAt(a: Bytes, b: Bytes, c: nat, n: nat)
    requires |a| == |b| && n < |a|
    ensures SubFrom(a, b, c)[n] == Low(Value(a[n]) - Value(b[n]) - BorrowInto(a, b, c, n))
    ensures BorrowInto(a, b, c, n + 1) == if Value(a[n]) - Value(b[n]) - BorrowInto(a, b, c, n) < 0 then 1 else 0
    decreases n
  {
    hide Low, Value;
    if n != 0 {
      SubFromAt(a[1..], b[1..], if Value(a[0]) - Value(b[0]) - c < 0 then 1 else 0, n - 1);
    }
  }

  /** Subtraction in place, byte by byte with a borrow. */
  method SubInPlace(a: array<Byte>, off: nat, b: Block)
    requires off + 16 <= a.Length
    modifies a
    ensures a[off..off + 16] == Sub128(old(a[off..off + 16]), b)
    ensures a[..off] == old(a[..off]) && a[off + 16..] == old(a[off + 16..])
  {
    hide Low, Value, SubFrom, BorrowInto;
    ghost var x: Block := a[off..off + 16];
    var borrow: nat := 0;
    assert BorrowInto(x, b, 0, 0) == 0 by { CarryStart(x, b); }
    for i := 0 to 16
      invariant borrow == BorrowInto(x, b, 0, i)
      invariant forall k :: 0 <= k < i ==> a[off + k] == SubFrom(x, b, 0)[k]
      invariant forall k :: i <= k < 16 ==> a[off + k] == x[k]
      invariant a[..off] == old(a[..off]) && a[off + 16..] == old(a[off + 16..])
    {
      SubFromAt(x, b, 0, i);
      var d := Value(a[off + i]) - Value(b[i]) - borrow;
      borrow := if d < 0 then 1 else 0;
      a[off + i] := Low(d);
    }
  }

  /** Adds the stream to the first n bytes of src; src may be dst. */
  method XorStream(k: Keys, nonce: Bytes, src: array<Byte>, dst: array<Byte>, n: nat)
    requires n <= src.Length == dst.Length
    modifies dst
    ensures dst[..n] == XorBytes(old(src[..n]), Stream(k, nonce, n))
  {
    hide XorByte;
    ghost var text := src[..n];
    for j := 0 to n
      invariant forall i :: 0 <= i < j ==> dst[i] == XorByte(text[i], k.stream(nonce, i))
      invariant forall i :: j <= i < n ==> src[i] == text[i]
    {
      dst[j] := XorByte(src[j], k.stream(nonce, j));
    }
  }

  method CopyBlock(b: Block, a: array<Byte>, off: nat)
    requires off + 16 <= a.Length
    modifies a
    ensures a[off..off + 16] == b && a[..off] == old(a[..off])
  {
    for i := 0 to 16
      invariant forall j :: 0 <= j < i ==> a[off + j] == b[j]
      invariant a[..off] == old(a[..off])
    {
      a[off + i] := b[i];
    }
  }

  /** Both directions: the tail plus the hash of the rest goes through the block
      cipher, the middle block keys the stream, and the hash of the new rest is
      taken off again. */
  method EncryptInto(k: Keys, tweak: Bytes, pt: array<Byte>, ct: array<Byte>)
    requires 16 <= pt.Length == ct.Length
    modifies ct
    ensures ct[..] == Encrypt(k, tweak, old(pt[..]))
  {
    hide Add128, Sub128, XorBytes, Stream, Nonce;
    ghost var text := pt[..];
    var llen := pt.Length - 16;
    assert pt[..llen] == Head(text) && pt[llen..] == Tail(text) && pt[llen..] == pt[llen..llen + 16];
    var h := k.hash(tweak, pt[..llen]);
    var pm := new Byte[16];
    CopyBlock(pt[llen..llen + 16], pm, 0);
    AddInPlace(pm, 0, h);
    assert pm[0..0 + 16] == pm[..];
    var cm := k.cipher.enc(pm[..]);
    XorStream(k, Nonce(cm), pt, ct, llen);
    ghost var cl := ct[..llen];
    h := k.hash(tweak, ct[..llen]);
    CopyBlock(cm, ct, llen);
    SubInPlace(ct, llen, h);
    assert ct[..] == ct[..llen] + ct[llen..llen + 16];
  }

  method DecryptInto(k: Keys, tweak: Bytes, ct: array<Byte>, pt: array<Byte>)
    requires 16 <= ct.Length == pt.Length
    modifies pt
    ensures pt[..] == Decrypt(k, tweak, old(ct[..]))
  {
    hide Add128, Sub128, XorBytes, Stream, Nonce;
    ghost var text := ct[..];
    var llen := ct.Length - 16;
    assert ct[..llen] == Head(text) && ct[llen..] == Tail(text) && ct[llen..] == ct[llen..llen + 16];
    var h := k.hash(tweak, ct[..llen]);
    var cm := new Byte[16];
    CopyBlock(ct[llen..llen + 16], cm, 0);
    AddInPlace(cm, 0, h);
    assert cm[0..0 + 16] == cm[..];
    XorStream(k, Nonce(cm[..]), ct, pt, llen);
    ghost var pl := pt[..llen];
    var pm := k.cipher.dec(cm[..]);
    h := k.hash(tweak, pt[..llen]);
    CopyBlock(pm, pt, llen);
    SubInPlace(pt, llen, h);
    assert pt[..] == pt[..llen] + pt[llen..llen + 16];
  }
}
