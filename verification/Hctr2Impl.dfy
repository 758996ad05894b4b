/** HCTR2 over buffers, as the C form computes it; input and output may be the
    same buffer. */
module Hctr2Impl {
  import opened PowersOfTwo
  import opened GfDot
  import opened Blocks
  import opened Wrappers
  import opened Hctr2

  const MAXMSG := 512
  const MAXTWK := 64

  // ----- POLYVAL on limbs -----

  function Low(b: Block): Bits64 {
    ToBits(b)[..64]
  }

  function High(b: Block): Bits64 {
    ToBits(b)[64..]
  }

  lemma LoadedIs(b: Block)
    ensures Pair(Low(b), High(b)) == ToBits(b)
  {
    hide ToBits;
  }

  lemma XorPair(s0: Bits64, s1: Bits64, x0: Bits64, x1: Bits64)
    ensures Pair(Xor(s0, x0), Xor(s1, x1)) == Xor(Pair(s0, s1), Pair(x0, x1))
  {
  }

  method PolyvalBuf(hbar: Block, buf: array<Byte>, len: nat) returns (out: Block)
    requires len % 16 == 0 && len <= buf.Length
    ensures out == PolyvalHash(hbar, buf[..len])
  {
    hide Xor, ToBits, Dot, Pair, Low, High, FromBits;
    ghost var key, s := ToBits(hbar), buf[..len];
    var h0, h1 := Low(hbar), High(hbar);
    LoadedIs(hbar);
    var s0: Bits64, s1: Bits64 := Zero(64), Zero(64);
    assert Pair(s0, s1) == Zero(128) by { ZeroPair(); }
    var i := 0;
    ghost var n := 0;
    while i < len
      invariant 0 <= i <= len && i == 16 * n
      invariant Pair(s0, s1) == Accumulated(key, s, n)
    {
      var x: Block := buf[i..i + 16];
      assert x == BlockAt(s, n);
      LoadedIs(x);
      XorPair(s0, s1, Low(x), High(x));
      s0, s1 := GfDotLimbs(Xor(s0, Low(x)), Xor(s1, High(x)), h0, h1);
      i := i + 16;
      n := n + 1;
    }
    out := FromBits(Pair(s0, s1));
  }

  lemma ZeroPair()
    ensures Pair(Zero(64), Zero(64)) == Zero(128)
  {
  }

  // ----- the hash buffer -----

  /** Copies `src` to position `at` of a buffer that is zero after `prefix`. */
  method Put(buf: array<Byte>, ghost prefix: Bytes, at: nat, src: Bytes)
    requires |prefix| <= at && at + |src| <= buf.Length
    requires buf[..] == prefix + Zeros(buf.Length - |prefix|)
    modifies buf
    ensures buf[..] == (prefix + Zeros(at - |prefix|) + src) + Zeros(buf.Length - at - |src|)
  {
    for i := 0 to |src|
      invariant forall k :: 0 <= k < buf.Length ==> buf[k] == if at <= k < at + i then src[k - at] else old(buf[k])
    {
      buf[at + i] := src[i];
    }
    ghost var want := (prefix + Zeros(at - |prefix|) + src) + Zeros(buf.Length - at - |src|);
    forall k | 0 <= k < buf.Length ensures buf[k] == want[k] {
      assert old(buf[..])[k] == old(buf[k]);
      if at <= k < at + |src| {
        assert buf[k] == src[k - at];
      } else {
        assert buf[k] == (prefix + Zeros(buf.Length - |prefix|))[k];
      }
    }
  }

  method HashBuffer(c: Cipher, tweak: Bytes, msg: array<Byte>, from: nat) returns (out: Block)
    requires from <= msg.Length && msg.Length - from <= MAXMSG && |tweak| <= MAXTWK
    ensures out == HashOf(c, tweak, msg[from..])
  {
    hide LittleEndian, Pow2, PolyvalHash, Pad, HashInput, PadLength;
    var m := msg[from..];
    var tlen, mlen := |tweak|, |m|;
    var buf: array<Byte> := new Byte[16 + MAXTWK + MAXMSG + 16](_ => 0);
    var rem := if mlen % 16 != 0 then 1 else 0;
    var lb := 8 * tlen * 2 + 2 + rem;
    assert buf[..] == [] + Zeros(buf.Length);
    var head := LittleEndian(lb, 8);
    Put(buf, [], 0, head);
    assert [] + Zeros(0) + head == head;
    var w := 16;
    Put(buf, head, w, tweak);
    Pow2Of64();
    LittleEndianWide(lb, 8, 8);
    ghost var prefix := LittleEndian(lb, 16) + tweak;
    assert head + Zeros(8) + tweak == prefix;
    w := w + tlen + PadLength(tlen);
    Put(buf, prefix, w, m);
    prefix := LittleEndian(lb, 16) + Pad(tweak) + m;
    Padded(LittleEndian(lb, 16), tweak, m);
    HashInputIs(tweak, m);
    if rem == 1 {
      Put(buf, prefix, w + mlen, [1]);
      w := w + mlen + 1 + PadLength(mlen + 1);
      Marked(buf[..], prefix, LittleEndian(lb, 16) + Pad(tweak), m, w);
    } else {
      w := w + mlen;
      assert buf[..w] == prefix;
    }
    out := PolyvalBuf(Hbar(c), buf, w);
  }

  lemma Padded(head: Bytes, tweak: Bytes, m: Bytes)
    ensures (head + tweak) + Zeros(PadLength(|tweak|)) + m == head + Pad(tweak) + m
    ensures |Pad(tweak)| == |tweak| + PadLength(|tweak|)
  {
    hide PadLength;
  }

  lemma HashInputIs(tweak: Bytes, m: Bytes)
    ensures var rem := if |m| % 16 != 0 then 1 else 0;
            HashInput(tweak, m) == LittleEndian(8 * |tweak| * 2 + 2 + rem, 16) + Pad(tweak)
              + if rem == 0 then m else Pad(m + [1])
  {
    hide LittleEndian, Pad, PadLength;
  }

  lemma Marked(buf: Bytes, prefix: Bytes, head: Bytes, m: Bytes, w: nat)
    requires prefix == head + m && w == |prefix| + 1 + PadLength(|m| + 1) <= |buf|
    requires buf == (prefix + Zeros(0) + [1]) + Zeros(|buf| - |prefix| - 1)
    ensures buf[..w] == head + Pad(m + [1])
  {
    hide PadLength;
  }

  // ----- the keystream -----

  /** s with the counter added into its low eight bytes. */
  method CounterBlock(s: Block, i: nat) returns (blk: Block)
    requires i < 0x1_0000_0000_0000_0000
    ensures blk == XorBytes(s, LittleEndian(i, 16))
  {
    hide LittleEndian, Pow2, XorByte;
    var counter := LittleEndian(i, 8);
    Pow2Of64();
    LittleEndianWide(i, 8, 8);
    var b := new Byte[16](k requires 0 <= k < 16 => s[k]);
    for j := 0 to 8
      invariant forall k :: 0 <= k < 16 ==> b[k] == if k < j then XorByte(s[k], counter[k]) else s[k]
    {
      b[j] := XorByte(b[j], counter[j]);
    }
    blk := b[..];
    forall k | 0 <= k < 16 ensures blk[k] == XorByte(s[k], LittleEndian(i, 16)[k]) {
      XorByteTwice(s[k], 0);
    }
  }

  /** Adds the keystream to the bytes of src from `base` on. */
  method XctrXor(c: Cipher, s: Block, src: array<Byte>, dst: array<Byte>, base: nat)
    requires base <= src.Length == dst.Length < 0x1_0000_0000_0000_0000
    modifies dst
    ensures dst[..base] == old(dst[..base])
    ensures dst[base..] == XorBytes(old(src[base..]), Xctr(c, s, src.Length - base))
  {
    hide XorByte, LittleEndian, KeyByte, XorBytes, Xctr;
    ghost var text, kept := src[..], dst[..base];
    var len := src.Length - base;
    var off, i := 0, 1;
    while off < len
      invariant 0 <= off <= len && (off == 16 * (i - 1) || off == len) && 1 <= i && 16 * (i - 1) < len + 16
      invariant forall p :: base <= p < base + off ==> dst[p] == XorByte(text[p], KeyByte(c, s, p - base))
      invariant forall p :: base + off <= p < src.Length ==> src[p] == text[p]
      invariant dst[..base] == kept
    {
      var blk := CounterBlock(s, i);
      var ks := c.enc(blk);
      var n := if len - off < 16 then len - off else 16;
      for j := 0 to n
        invariant forall p :: base <= p < base + off + j ==> dst[p] == XorByte(text[p], KeyByte(c, s, p - base))
        invariant forall p :: base + off + j <= p < src.Length ==> src[p] == text[p]
        invariant dst[..base] == kept
      {
        KeyByteIs(c, s, i, off + j, j);
        dst[base + off + j] := XorByte(src[base + off + j], ks[j]);
      }
      off := off + n;
      i := i + 1;
    }
    StreamAdded(c, s, text, dst[..], base);
  }

  lemma StreamAdded(c: Cipher, s: Block, text: Bytes, out: Bytes, base: nat)
    requires base <= |text| == |out|
    requires forall p :: base <= p < |text| ==> out[p] == XorByte(text[p], KeyByte(c, s, p - base))
    ensures out[base..] == XorBytes(text[base..], Xctr(c, s, |text| - base))
  {
    hide XorByte, KeyByte;
    var want := XorBytes(text[base..], Xctr(c, s, |text| - base));
    forall k | 0 <= k < |want| ensures out[base..][k] == want[k] {
      assert out[base + k] == XorByte(text[base + k], KeyByte(c, s, k));
    }
  }

  lemma KeyByteIs(c: Cipher, s: Block, i: nat, k: nat, j: nat)
    requires 1 <= i && j < 16 && k == 16 * (i - 1) + j
    ensures KeyByte(c, s, k) == c.enc(XorBytes(s, LittleEndian(i, 16)))[j]
  {
    assert k / 16 + 1 == i && k % 16 == j;
  }

  // ----- both directions -----

  lemma EncryptIs(c: Cipher, tweak: Bytes, text: Bytes, mm: Block, v: Bytes)
    requires |text| >= 16 && mm == XorBytes(text[..16], HashOf(c, tweak, text[16..]))
    requires v == XorBytes(text[16..], Xctr(c, Separator(c, mm, c.enc(mm)), |text| - 16))
    ensures Encrypt(c, tweak, text) == Some(XorBytes(c.enc(mm), HashOf(c, tweak, v)) + v)
  {
    hide XorBytes, HashOf, Xctr, Separator;
  }

  lemma DecryptIs(c: Cipher, tweak: Bytes, text: Bytes, uu: Block, n: Bytes)
    requires |text| >= 16 && uu == XorBytes(text[..16], HashOf(c, tweak, text[16..]))
    requires n == XorBytes(text[16..], Xctr(c, Separator(c, c.dec(uu), uu), |text| - 16))
    ensures Decrypt(c, tweak, text) == Some(XorBytes(c.dec(uu), HashOf(c, tweak, n)) + n)
  {
    hide XorBytes, HashOf, Xctr, Separator;
  }

  /** hctr2_crypt: one routine enciphers and deciphers, in place if wanted. */
  method Crypt(c: Cipher, encrypting: bool, tweak: Bytes, inp: array<Byte>, out: array<Byte>)
    requires 16 <= inp.Length == out.Length <= 16 + MAXMSG && |tweak| <= MAXTWK
    modifies out
    ensures encrypting ==> Some(out[..]) == Encrypt(c, tweak, old(inp[..]))
    ensures !encrypting ==> Some(out[..]) == Decrypt(c, tweak, old(inp[..]))
  {
    hide XorBytes, HashOf, Xctr, Ell, Encrypt, Decrypt;
    ghost var text := inp[..];
    assert inp[16..] == text[16..] && inp[..16] == text[..16];
    var dig := HashBuffer(c, tweak, inp, 16);
    var first: Block := XorBytes(inp[..16], dig);
    var ff := if encrypting then c.enc(first) else c.dec(first);
    var s: Block := XorBytes(XorBytes(first, ff), Ell(c));
    XorCommutes(first, ff);
    XctrXor(c, s, inp, out, 16);
    ghost var tail := out[16..];
    dig := HashBuffer(c, tweak, out, 16);
    var head: Block := XorBytes(ff, dig);
    WriteHead(out, head);
    assert out[..] == out[..16] + out[16..];
    if encrypting {
      EncryptIs(c, tweak, text, first, tail);
    } else {
      DecryptIs(c, tweak, text, first, tail);
    }
  }

  method WriteHead(out: array<Byte>, head: Block)
    requires 16 <= out.Length
    modifies out
    ensures out[..16] == head && out[16..] == old(out[16..])
  {
    for j := 0 to 16
      invariant out[16..] == old(out[16..])
      invariant forall k :: 0 <= k < j ==> out[k] == head[k]
    {
      out[j] := head[j];
    }
  }
}
