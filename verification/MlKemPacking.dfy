/** The bit loops of byte_encode and byte_decode over arrays, at an offset. */
module MlKemPacking {
  import opened ByteNumbers
  import opened ModArith
  import opened PowersOfTwo
  import opened MlKemField
  import opened MlKemCoding
  import opened MlKemImpl

  /** Bit b of x, as (x >> b) & 1. */
  function BitOf(x: nat, b: nat): Bit {
    x / Pow2(b) % 2
  }

  /** x with bit b switched on, as x | (1 << b). */
  function SetBit(x: nat, b: nat): nat {
    if BitOf(x, b) == 1 then x else x + Pow2(b)
  }

  lemma {:induction false} ToBitsAt(x: nat, w: nat, b: nat)
    requires b < w
    ensures ToBits(x, w)[b] == BitOf(x, b)
    decreases w
  {
    if b != 0 {
      ToBitsAt(x / 2, w - 1, b - 1);
      NestedDivision(x, 2, Pow2(b - 1));
    }
  }

  lemma {:induction false} StreamAt(f: seq<nat>, w: nat, i: nat, b: nat)
    requires i < |f| && b < w
    ensures i * w + b < |f| * w
    ensures Stream(f, w)[i * w + b] == BitOf(f[i], b)
    decreases i
  {
    hide ToBits, BitOf;
    InnerIndex(|f|, w, i, b);
    if i == 0 {
      ToBitsAt(f[0], w, b);
    } else {
      StreamAt(f[1..], w, i - 1, b);
      StreamTail(f, w, (i - 1) * w + b);
      assert i * w == w + (i - 1) * w;
    }
  }

  lemma InnerIndex(n: nat, w: nat, i: nat, b: nat)
    requires i < n && b < w
    ensures 0 <= i * w + b < n * w
  {
    assert i * w + w == (i + 1) * w <= n * w;
  }

  lemma StreamTail(f: seq<nat>, w: nat, p: nat)
    requires f != [] && p < |Stream(f[1..], w)|
    ensures w + p < |Stream(f, w)| && Stream(f, w)[w + p] == Stream(f[1..], w)[p]
  {
    hide ToBits;
  }

  lemma {:induction false} FromBitsAppend(s: seq<Bit>, b: Bit)
    ensures FromBits(s + [b]) == FromBits(s) + b * Pow2(|s|)
  {
    if s == [] {
      assert s + [b] == [b];
      assert FromBits([b]) == b + 2 * FromBits([b][1..]);
    } else {
      FromBitsAppend(s[1..], b);
      assert (s + [b])[1..] == s[1..] + [b];
    }
  }

  lemma {:induction false} GroupAt(s: seq<Bit>, w: nat, n: nat, k: nat)
    requires 1 <= w && |s| == n * w && k < n
    ensures |Group(s, w)| == n && k * w + w <= |s|
    ensures Group(s, w)[k] == FromBits(s[k * w..k * w + w])
    decreases n
  {
    hide FromBits;
    GroupLength(s, w, n);
    var rest := (n - 1) * w;
    assert n * w == w + rest && rest >= 0;
    if k != 0 {
      var p := (k - 1) * w;
      assert k * w == w + p;
      GroupAt(s[w..], w, n - 1, k - 1);
      assert s[w..][p..p + w] == s[w + p..w + p + w];
    }
  }

  /** The value of byte k after the first `pos` bits of the stream. */
  function PartialByte(s: seq<Bit>, pos: nat, k: nat): Byte
    requires pos <= |s|
  {
    var c := if pos <= 8 * k then [] else if pos <= 8 * k + 8 then s[8 * k..pos] else s[8 * k..8 * k + 8];
    Pow2Monotone(|c|, 8);
    assert Pow2(8) == 256;
    FromBits(c)
  }

  /** The output buffer after the first `pos` bits: n bytes at `off` are ours. */
  function Buffer(before: Bytes, off: nat, n: nat, s: seq<Bit>, pos: nat): (r: Bytes)
    requires off + n <= |before| && pos <= |s|
    ensures |r| == |before|
  {
    before[..off] + seq(n, k requires 0 <= k < n => PartialByte(s, pos, k)) + before[off + n..]
  }

  /** Writing one bit of the stream with `|=`. */
  lemma WriteBit(s: seq<Bit>, pos: nat, k: nat)
    requires pos < |s| && k == pos / 8
    ensures PartialByte(s, pos + 1, k)
      == if s[pos] == 1 then SetBit(PartialByte(s, pos, k), pos % 8) else PartialByte(s, pos, k)
    ensures PartialByte(s, pos + 1, k) < 256
    ensures forall i: nat | i != k :: PartialByte(s, pos + 1, i) == PartialByte(s, pos, i)
  {
    var c := s[8 * k..pos];
    assert |c| == pos % 8 && pos == 8 * k + pos % 8;
    assert s[8 * k..pos + 1] == c + [s[pos]];
    FromBitsAppend(c, s[pos]);
    assert FromBits([]) == 0;
    assert PartialByte(s, pos, k) == FromBits(c);
    DivModUnique(FromBits(c), Pow2(|c|), 0, FromBits(c));
    Pow2Monotone(|c| + 1, 8);
    assert Pow2(8) == 256;
  }

  lemma {:induction false} Pow2Monotone(a: nat, b: nat)
    requires a <= b
    ensures Pow2(a) <= Pow2(b)
    decreases b
  {
    if a < b {
      Pow2Monotone(a, b - 1);
    }
  }

  /** The buffer with bit b of byte k switched on, when asked to. */
  function OrBit(buf: seq<nat>, k: nat, b: nat, on: bool): (r: seq<nat>)
    requires k < |buf|
    ensures |r| == |buf|
  {
    if on then buf[k := SetBit(buf[k], b)] else buf
  }

  lemma BufferStep(before: Bytes, off: nat, n: nat, s: seq<Bit>, pos: nat)
    requires off + n <= |before| && pos < |s| == 8 * n
    ensures off + pos / 8 < |before|
    ensures Buffer(before, off, n, s, pos + 1) == OrBit(Buffer(before, off, n, s, pos), off + pos / 8, pos % 8, s[pos] == 1)
  {
    hide PartialByte, SetBit;
    WriteBit(s, pos, pos / 8);
  }

  method OrBitInto(out: array<Byte>, k: nat, b: nat, on: bool)
    requires k < out.Length && OrBit(out[..], k, b, on)[k] < 256
    modifies out
    ensures out[..] == OrBit(old(out[..]), k, b, on)
  {
    hide SetBit;
    if on {
      out[k] := SetBit(out[k], b);
    }
  }

  method Clear(out: array<Byte>, off: nat, n: nat)
    requires off + n <= out.Length
    modifies out
    ensures out[..] == old(out[..off]) + seq(n, _ => 0) + old(out[off + n..])
  {
    for k := 0 to n
      invariant forall p | 0 <= p < out.Length :: out[p] == if off <= p < off + k then 0 else old(out[p])
    {
      out[off + k] := 0;
    }
  }

  lemma BufferEnds(before: Bytes, off: nat, f: seq<nat>, d: nat)
    requires |f| == 256 && off + 32 * d <= |before|
    ensures |Stream(f, d)| == 8 * (32 * d)
    ensures Buffer(before, off, 32 * d, Stream(f, d), 0) == before[..off] + seq(32 * d, _ => 0) + before[off + 32 * d..]
    ensures Buffer(before, off, 32 * d, Stream(f, d), 256 * d) == before[..off] + ByteEncode(f, d) + before[off + 32 * d..]
  {
    var s, n := Stream(f, d), 32 * d;
    var bytes := ByteEncode(f, d);
    forall k | 0 <= k < n
      ensures PartialByte(s, 256 * d, k) == bytes[k]
    {
      GroupAt(s, 8, n, k);
    }
    assert seq(n, k requires 0 <= k < n => PartialByte(s, 256 * d, k)) == bytes;
  }

  /** byte_encode: d bits per coefficient into out[off..off + 32 d]. */
  method EncodeInto(f: array<Word16>, d: nat, out: array<Byte>, off: nat)
    requires f.Length == 256 && off + 32 * d <= out.Length
    modifies out
    ensures out[..] == old(out[..off]) + ByteEncode(f[..], d) + old(out[off + 32 * d..])
  {
    hide *;
    ghost var s, before := Stream(f[..], d), out[..];
    BufferEnds(before, off, f[..], d);
    Clear(out, off, 32 * d);
    var pos: nat := 0;
    for i := 0 to 256
      invariant pos == i * d
      invariant out[..] == Buffer(before, off, 32 * d, s, pos)
    {
      pos := EncodeOne(f, i, d, out, off, pos, before);
    }
  }

  /** The inner loop: the d bits of one coefficient. */
  method EncodeOne(f: array<Word16>, i: nat, d: nat, out: array<Byte>, off: nat, start: nat, ghost before: Bytes)
    returns (pos: nat)
    requires i < f.Length == 256 && off + 32 * d <= |before| && start == i * d
    requires |Stream(f[..], d)| == 8 * (32 * d) && start <= |Stream(f[..], d)|
    requires out[..] == Buffer(before, off, 32 * d, Stream(f[..], d), start)
    modifies out
    ensures pos == (i + 1) * d && pos <= |Stream(f[..], d)|
    ensures out[..] == Buffer(before, off, 32 * d, Stream(f[..], d), pos)
  {
    hide *;
    ghost var s := Stream(f[..], d);
    var b: nat := 0;
    pos := start;
    while b < d
      invariant b <= d && pos == i * d + b && pos <= |s|
      invariant out[..] == Buffer(before, off, 32 * d, s, pos)
    {
      StreamAt(f[..], d, i, b);
      BufferStep(before, off, 32 * d, s, pos);
      OrBitInto(out, off + pos / 8, pos % 8, BitOf(f[i], b) == 1);
      b := b + 1;
      pos := pos + 1;
    }
    assert (i + 1) * d == i * d + d;
  }

  /** Reading one more bit of group i with `|=`. */
  lemma ReadBit(t: seq<Bit>, i: nat, d: nat, b: nat)
    requires b < d && i * d + d <= |t|
    ensures i * d + b < |t|
    ensures FromBits(t[i * d..i * d + b + 1])
      == if t[i * d + b] == 1 then SetBit(FromBits(t[i * d..i * d + b]), b) else FromBits(t[i * d..i * d + b])
  {
    hide FromBits, SetBit;
    ReadBitAt(t, i * d, b);
  }

  lemma ReadBitAt(t: seq<Bit>, p: nat, b: nat)
    requires p + b < |t|
    ensures FromBits(t[p..p + b + 1])
      == if t[p + b] == 1 then SetBit(FromBits(t[p..p + b]), b) else FromBits(t[p..p + b])
  {
    var c := t[p..p + b];
    assert t[p..p + b + 1] == c + [t[p + b]];
    FromBitsAppend(c, t[p + b]);
    DivModUnique(FromBits(c), Pow2(b), 0, FromBits(c));
  }

  lemma DecodeAt(data: Bytes, d: nat, i: nat)
    requires 1 <= d && |data| == 32 * d && i < 256
    ensures i * d + d <= |Stream(data, 8)|
    ensures ByteDecode(data, d)[i] == FromBits(Stream(data, 8)[i * d..i * d + d])
  {
    hide Stream, FromBits;
    assert |data| * 8 == 256 * d;
    GroupAt(Stream(data, 8), d, 256, i);
  }

  lemma NoBits(t: seq<Bit>, p: nat)
    requires p <= |t|
    ensures FromBits(t[p..p]) == 0
  {
  }

  lemma TwelveBits(c: seq<Bit>)
    requires |c| <= 12
    ensures FromBits(c) < 4096
  {
    Powers();
    Pow2Monotone(|c|, 12);
  }

  /** byte_decode: coefficients of d bits from data[off..off + 32 d]. */
  method DecodeFrom(data: array<Byte>, off: nat, d: nat, f: array<Word16>)
    requires 1 <= d <= 12 && off + 32 * d <= data.Length && f.Length == 256
    modifies f
    ensures f[..] == ByteDecode(data[off..off + 32 * d], d)
  {
    hide *;
    var pos: nat := 0;
    for i := 0 to 256
      invariant pos == i * d
      invariant forall k | 0 <= k < i :: f[k] == ByteDecode(data[off..off + 32 * d], d)[k]
    {
      f[i] := DecodeOne(data, off, d, i, pos);
      pos := pos + d;
    }
  }

  /** The inner loop: the d bits of one coefficient. */
  method DecodeOne(data: array<Byte>, off: nat, d: nat, i: nat, start: nat) returns (v: Word16)
    requires 1 <= d <= 12 && off + 32 * d <= data.Length && i < 256 && start == i * d
    ensures v == ByteDecode(data[off..off + 32 * d], d)[i]
  {
    hide *;
    ghost var bytes := data[off..off + 32 * d];
    ghost var t := Stream(bytes, 8);
    DecodeAt(bytes, d, i);
    NoBits(t, start);
    v := 0;
    var pos: nat, b: nat := start, 0;
    while b < d
      invariant b <= d && pos == start + b && v == FromBits(t[start..start + b])
    {
      ReadBit(t, i, d, b);
      StreamByte(bytes, pos);
      TwelveBits(t[start..start + b + 1]);
      if BitOf(data[off + pos / 8], pos % 8) == 1 {
        v := SetBit(v, b);
      }
      b := b + 1;
      pos := pos + 1;
    }
  }

  lemma StreamByte(data: Bytes, pos: nat)
    requires pos < |Stream(data, 8)|
    ensures pos / 8 < |data| && Stream(data, 8)[pos] == BitOf(data[pos / 8], pos % 8)
  {
    hide BitOf;
    StreamAt(data, 8, pos / 8, pos % 8);
  }
}
