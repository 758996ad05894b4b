/** BLAKE3 as the C form computes it: a recursion over a range of the input that
    writes chaining values into arrays, equal to the form over lists. */
module Blake3Impl {
  import opened Blocks
  import opened ModArith
  import opened PowersOfTwo
  import opened Blake3

  /** Doubling up to the largest power of two below the chunk count. */
  method LeftLen(nchunks: nat) returns (p: nat)
    requires 2 <= nchunks
    ensures p == Split(nchunks)
  {
    p := 1;
    while p * 2 < nchunks
      invariant 1 <= p < nchunks && PowerOfTwo(p)
    {
      p := p * 2;
    }
    SplitUnique(p, nchunks);
  }

  function Range(data: Bytes, off: nat, n: nat): Bytes
    requires off + n <= |data|
  {
    data[off..off + n]
  }

  lemma RangeLength(data: Bytes, off: nat, n: nat)
    requires off + n <= |data|
    ensures |Range(data, off, n)| == n
  {
  }

  lemma SubRange(data: Bytes, off: nat, n: nat, a: nat, b: nat)
    requires off + n <= |data| && a <= b <= n
    ensures Range(data, off, n)[a..b] == data[off + a..off + b]
    ensures b == n ==> Range(data, off, n)[a..] == data[off + a..off + b]
  {
    var r, t := Range(data, off, n), data[off + a..off + b];
    forall k | 0 <= k < b - a ensures r[a..b][k] == t[k] {
    }
    assert r[a..b] == t;
    assert b == n ==> r[a..] == r[a..b];
  }

  /** One chunk, block by block, into its output node. */
  method ChunkOutputC(f: Compression, key: Cv, data: Bytes, off: nat, n: nat, index: nat, base: bv32) returns (o: Output)
    requires off + n <= |data|
    ensures o == ChunkOutput(f, key, Range(data, off, n), index, base)
  {
    hide Load, BlockFlags, Count, Range, Pieces;
    ghost var chunk := Range(data, off, n);
    ghost var blocks := Pieces(chunk, 64);
    RangeLength(data, off, n);
    PieceCount(chunk, 64);
    var nb := BlockCount(n);
    assert |blocks| == nb;
    var cv := key;
    for i := 0 to nb - 1
      invariant cv == ChunkChain(f, key, blocks, i, index, base)
    {
      PieceAt(chunk, 64, i, 64 * i);
      SubRange(data, off, n, 64 * i, 64 * i + 64);
      var w := Load(data[off + 64 * i..off + 64 * i + 64]);
      cv := f(cv, w, index, 64, BlockFlags(base, i, nb))[..8];
    }
    var last := nb - 1;
    PieceAt(chunk, 64, last, 64 * last);
    SubRange(data, off, n, 64 * last, n);
    assert blocks[last] == data[off + 64 * last..off + n];
    o := Output(cv, Load(data[off + 64 * last..off + n]), n - 64 * last, BlockFlags(base, last, nb));
  }

  function BlockCount(n: nat): (nb: nat)
    ensures nb == Count(n, 64) && 1 <= nb
  {
    if n == 0 then 1 else (n + 63) / 64
  }

  function ChunkCount(n: nat): (nc: nat)
    ensures nc == Count(n, 1024) && 1 <= nc
  {
    if n == 0 then 1 else (n + 1023) / 1024
  }

  /** The left subtree ends inside the range. */
  lemma LeftFits(n: nat, l: nat)
    requires l < Count(n, 1024)
    ensures l * 1024 <= n && (1 <= l ==> l * 1024 < n)
  {
  }

  /** The chaining value of a range of more than no bytes, or of one chunk. */
  method SubtreeCvC(f: Compression, key: Cv, data: Bytes, off: nat, n: nat, first: nat, base: bv32, cv: array<bv32>)
    requires off + n <= |data| && cv.Length == 8
    modifies cv
    ensures cv[..] == SubtreeCv(f, key, Pieces(Range(data, off, n), 1024), first, base)
    decreases n
  {
    hide ChainOf, ChunkOutput, ParentOutput, Split, Count;
    ghost var chunk := Range(data, off, n);
    PieceCount(chunk, 1024);
    var nchunks := ChunkCount(n);
    if nchunks == 1 {
      var o := ChunkOutputC(f, key, data, off, n, first, base);
      OnePiece(chunk);
      WriteCv(ChainOf(f, o, first), cv);
    } else {
      var l := LeftLen(nchunks);
      LeftFits(n, l);
      SplitBounds(nchunks);
      var lcv, rcv := new bv32[8], new bv32[8];
      SubtreeCvC(f, key, data, off, l * 1024, first, base, lcv);
      SubtreeCvC(f, key, data, off + l * 1024, n - l * 1024, first + l, base, rcv);
      RangeSplit(data, off, n, l * 1024);
      PiecesSplit(chunk, 1024, l, l * 1024);
      WriteCv(ChainOf(f, ParentOutput(key, lcv[..], rcv[..], base), 0), cv);
    }
  }

  lemma OnePiece(data: Bytes)
    requires |Pieces(data, 1024)| == 1
    ensures Pieces(data, 1024) == [data]
  {
  }

  lemma SplitBounds(n: nat)
    requires 2 <= n
    ensures 1 <= Split(n) < n
  {
  }

  lemma RangeSplit(data: Bytes, off: nat, n: nat, at: nat)
    requires off + n <= |data| && at <= n
    ensures Range(data, off, n)[..at] == Range(data, off, at)
    ensures Range(data, off, n)[at..] == Range(data, off + at, n - at)
  {
  }

  method WriteCv(v: Cv, cv: array<bv32>)
    requires cv.Length == 8
    modifies cv
    ensures cv[..] == v
  {
    for i := 0 to 8
      invariant forall k :: 0 <= k < i ==> cv[k] == v[k]
    {
      cv[i] := v[i];
    }
  }

  /** The extended output, sixty-four bytes at a time, the last block cut. */
  method OutRoot(f: Compression, o: Output, dst: array<Byte>)
    modifies dst
    ensures dst[..] == RootBytes(f, o, dst.Length)
  {
    hide OutputByte;
    var t, off := 0, 0;
    while off < dst.Length
      invariant 0 <= off <= dst.Length && (off == 64 * t || off == dst.Length) && 0 <= t
      invariant forall j :: 0 <= j < off ==> dst[j] == OutputByte(f, o, j)
    {
      var w := f(o.cv, o.block, t, o.blen, o.flags | ROOT);
      var c := if dst.Length - off < 64 then dst.Length - off else 64;
      for i := 0 to c
        invariant forall j :: 0 <= j < off + i ==> dst[j] == OutputByte(f, o, j)
      {
        ByteIndex(t, i);
        OutputByteIs(f, o, off + i, t, i);
        dst[off + i] := WordByte(w[i / 4], i % 4);
      }
      off := off + c;
      t := t + 1;
    }
  }

  lemma ByteIndex(t: nat, i: nat)
    requires i < 64
    ensures (64 * t + i) / 64 == t && (64 * t + i) % 64 == i && (64 * t + i) % 4 == i % 4
  {
    DivModUnique(64 * t + i, 64, t, i);
    DivModUnique(64 * t + i, 4, 16 * t + i / 4, i % 4);
  }

  lemma OutputByteIs(f: Compression, o: Output, j: nat, t: nat, i: nat)
    requires j == 64 * t + i && i < 64
    ensures OutputByte(f, o, j) == WordByte(f(o.cv, o.block, t, o.blen, o.flags | ROOT)[i / 4], i % 4)
  {
    hide WordByte;
    ByteIndex(t, i);
  }

  /** The whole hash over a byte range equals the form over the list of chunks,
      for every length, key, flag base and output length. */
  method Blake3C(f: Compression, key: Cv, data: Bytes, base: bv32, dst: array<Byte>)
    modifies dst
    ensures dst[..] == Blake3.Hash(f, key, data, base, dst.Length)
  {
    hide ChunkOutput, ParentOutput, SubtreeCv, Split, RootBytes, Count;
    var n := |data|;
    PieceCount(data, 1024);
    var nchunks := ChunkCount(n);
    assert Range(data, 0, n) == data;
    var o: Output;
    if nchunks == 1 {
      OnePiece(data);
      o := ChunkOutputC(f, key, data, 0, n, 0, base);
    } else {
      var l := LeftLen(nchunks);
      LeftFits(n, l);
      SplitBounds(nchunks);
      var lcv, rcv := new bv32[8], new bv32[8];
      SubtreeCvC(f, key, data, 0, l * 1024, 0, base, lcv);
      SubtreeCvC(f, key, data, l * 1024, n - l * 1024, l, base, rcv);
      RangeSplit(data, 0, n, l * 1024);
      PiecesSplit(data, 1024, l, l * 1024);
      o := ParentOutput(key, lcv[..], rcv[..], base);
    }
    OutRoot(f, o, dst);
  }

  /** The root bytes as the list form appends and cuts them. */
  method RootBytesList(f: Compression, o: Output, n: nat) returns (out: Bytes)
    ensures out == RootBytes(f, o, n)
  {
    hide OutputByte, WordByte;
    var blocks: Bytes := [];
    var t := 0;
    while |blocks| < n
      invariant 0 <= t && |blocks| == 64 * t
      invariant forall j :: 0 <= j < |blocks| ==> blocks[j] == OutputByte(f, o, j)
      decreases n - |blocks|
    {
      var w := f(o.cv, o.block, t, o.blen, o.flags | ROOT);
      var next := seq(64, i requires 0 <= i < 64 => WordByte(w[i / 4], i % 4));
      forall i | 0 <= i < 64 ensures next[i] == OutputByte(f, o, 64 * t + i) {
        OutputByteIs(f, o, 64 * t + i, t, i);
      }
      blocks := blocks + next;
      t := t + 1;
    }
    out := blocks[..n];
  }
}
