/** The digest of BLAKE3 written over byte positions: which bytes, counters,
    lengths and flags every compression gets, with the flag values in figures. */
module Blake3Format {
  import opened Blocks
  import opened ModArith
  import opened PowersOfTwo
  import opened Blake3

  // ----- words -----

  /** Byte k of word i of a block is byte 4 i + k of the padded bytes. */
  lemma LoadLayout(b: Bytes, i: nat, k: nat)
    requires |b| <= 64 && i < 16 && k < 4
    ensures WordByte(Load(b)[i], k) == if 4 * i + k < |b| then b[4 * i + k] else 0
  {
    hide WordFrom, WordByte;
    var p := b + Zeros(64 - |b|);
    WordBytes(p[4 * i], p[4 * i + 1], p[4 * i + 2], p[4 * i + 3]);
    assert p[4 * i + k] == if 4 * i + k < |b| then b[4 * i + k] else 0;
  }

  lemma WordBytes(b0: Byte, b1: Byte, b2: Byte, b3: Byte)
    ensures WordByte(WordFrom(b0, b1, b2, b3), 0) == b0
    ensures WordByte(WordFrom(b0, b1, b2, b3), 1) == b1
    ensures WordByte(WordFrom(b0, b1, b2, b3), 2) == b2
    ensures WordByte(WordFrom(b0, b1, b2, b3), 3) == b3
  {
  }

  /** Byte k of a word is its bits 8 k to 8 k + 7. */
  lemma WordByteBits(w: bv32)
    ensures WordByte(w, 0) as bv32 == w % 0x100
    ensures WordByte(w, 1) as bv32 == w / 0x100 % 0x100
    ensures WordByte(w, 2) as bv32 == w / 0x1_0000 % 0x100
    ensures WordByte(w, 3) as bv32 == w / 0x100_0000
  {
  }

  // ----- chunks -----

  /** Chunk i of the data. */
  function ChunkBytes(data: Bytes, i: nat): (c: Bytes)
    requires 1024 * i <= |data|
    ensures |c| <= 1024
  {
    if |data| - 1024 * i <= 1024 then data[1024 * i..] else data[1024 * i..1024 * i + 1024]
  }

  /** The chaining value after the first i blocks of a chunk, which are whole. */
  function BlockState(f: Compression, key: Cv, chunk: Bytes, index: nat, base: bv32, i: nat): Cv
    requires 64 * i <= |chunk|
  {
    if i == 0 then key
    else f(BlockState(f, key, chunk, index, base, i - 1), Load(chunk[64 * (i - 1)..64 * i]), index, 64,
           if i == 1 then base | 1 else base)[..8]
  }

  /** The number of blocks before the last one. */
  function LastBlock(n: nat): (last: nat)
    ensures 64 * last <= n && n - 64 * last <= 64
  {
    if n == 0 then 0 else (n - 1) / 64
  }

  /** The last block of a chunk with what it is compressed under. */
  function ChunkNode(f: Compression, key: Cv, chunk: Bytes, index: nat, base: bv32): Output {
    var last := LastBlock(|chunk|);
    Output(BlockState(f, key, chunk, index, base, last), Load(chunk[64 * last..]), |chunk| - 64 * last,
           if last == 0 then base | 3 else base | 2)
  }

  lemma OnlyBlock(base: bv32)
    ensures BlockFlags(base, 0, 1) == base | 3
  {
  }

  lemma FirstBlock(base: bv32, n: nat)
    requires n != 1
    ensures BlockFlags(base, 0, n) == base | 1
  {
  }

  lemma EndBlock(base: bv32, i: nat)
    requires i > 0
    ensures BlockFlags(base, i, i + 1) == base | 2
  {
  }

  lemma InnerBlock(base: bv32, i: nat, n: nat)
    requires i > 0 && i + 1 != n
    ensures BlockFlags(base, i, n) == base
  {
  }

  lemma {:induction false} StateIsChain(f: Compression, key: Cv, chunk: Bytes, index: nat, base: bv32, i: nat)
    requires i < |Pieces(chunk, 64)|
    ensures 64 * i <= |chunk|
    ensures BlockState(f, key, chunk, index, base, i) == ChunkChain(f, key, Pieces(chunk, 64), i, index, base)
    decreases i
  {
    hide Pieces, BlockFlags, Load;
    PieceAt(chunk, 64, i, 64 * i);
    if i > 0 {
      StateIsChain(f, key, chunk, index, base, i - 1);
      PieceAt(chunk, 64, i - 1, 64 * (i - 1));
      if i == 1 {
        FirstBlock(base, |Pieces(chunk, 64)|);
      } else {
        InnerBlock(base, i - 1, |Pieces(chunk, 64)|);
      }
    }
  }

  lemma ChunkOutputIs(f: Compression, key: Cv, chunk: Bytes, index: nat, base: bv32)
    ensures ChunkOutput(f, key, chunk, index, base) == ChunkNode(f, key, chunk, index, base)
  {
    hide Pieces, BlockFlags, Load, BlockState, ChunkChain;
    var last := |Pieces(chunk, 64)| - 1;
    PieceAt(chunk, 64, last, 64 * last);
    if last > 0 {
      PieceAt(chunk, 64, last - 1, 64 * (last - 1));
      DivModUnique(|chunk| - 1, 64, last, |chunk| - 1 - 64 * last);
    }
    assert LastBlock(|chunk|) == last;
    StateIsChain(f, key, chunk, index, base, last);
    if last == 0 {
      OnlyBlock(base);
    } else {
      EndBlock(base, last);
    }
  }

  // ----- the tree -----

  /** The number of chunks: one for no data, and the last one may be short. */
  function ChunkCount(n: nat): (count: nat)
    ensures 1 <= count && 1024 * (count - 1) <= n && (count > 1 ==> 1024 * (count - 1) < n)
  {
    if n == 0 then 1 else (n - 1) / 1024 + 1
  }

  /** The value of the node over n chunks of the data, from chunk `first` on. */
  function NodeValue(f: Compression, key: Cv, data: Bytes, base: bv32, first: nat, n: nat): Cv
    requires 1 <= n && first + n <= ChunkCount(|data|)
    decreases n
  {
    if n == 1 then
      var o := ChunkNode(f, key, ChunkBytes(data, first), first, base);
      f(o.cv, o.block, first, o.blen, o.flags)[..8]
    else f(key, NodeBlock(f, key, data, base, first, n), 0, 64, base | 4)[..8]
  }

  /** The two children of that node, the left one first. */
  function NodeBlock(f: Compression, key: Cv, data: Bytes, base: bv32, first: nat, n: nat): Words16
    requires 2 <= n && first + n <= ChunkCount(|data|)
    decreases n, 0
  {
    var k := Split(n);
    var left: Words := NodeValue(f, key, data, base, first, k);
    left + NodeValue(f, key, data, base, first + k, n - k)
  }

  lemma CountIs(data: Bytes)
    ensures |Pieces(data, 1024)| == ChunkCount(|data|)
  {
    hide Pieces;
    var last := |Pieces(data, 1024)| - 1;
    PieceAt(data, 1024, last, 1024 * last);
    if last > 0 {
      PieceAt(data, 1024, last - 1, 1024 * (last - 1));
      DivModUnique(|data| - 1, 1024, last, |data| - 1 - 1024 * last);
    }
  }

  lemma LeafIsNode(f: Compression, key: Cv, data: Bytes, base: bv32, first: nat)
    requires first < ChunkCount(|data|) == |Pieces(data, 1024)|
    ensures SubtreeCv(f, key, [Pieces(data, 1024)[first]], first, base) == NodeValue(f, key, data, base, first, 1)
  {
    hide Pieces, ChunkCount, ChunkOutput, ChunkNode;
    PieceAt(data, 1024, first, 1024 * first);
    ChunkOutputIs(f, key, Pieces(data, 1024)[first], first, base);
  }

  lemma {:induction false} SubtreeIsNode(f: Compression, key: Cv, data: Bytes, base: bv32, first: nat, n: nat)
    requires 1 <= n && first + n <= ChunkCount(|data|) == |Pieces(data, 1024)|
    ensures SubtreeCv(f, key, Pieces(data, 1024)[first..first + n], first, base) == NodeValue(f, key, data, base, first, n)
    decreases n
  {
    hide Pieces, ChunkCount, Split, SubtreeCv, NodeValue, Above;
    var chunks := Pieces(data, 1024)[first..first + n];
    if n == 1 {
      LeafIsNode(f, key, data, base, first);
      assert chunks == [Pieces(data, 1024)[first]];
    } else {
      var k := Split(n);
      SubtreeIsNode(f, key, data, base, first, k);
      SubtreeIsNode(f, key, data, base, first + k, n - k);
      assert chunks[..k] == Pieces(data, 1024)[first..first + k];
      assert chunks[k..] == Pieces(data, 1024)[first + k..first + n];
      SubtreeSplits(f, key, chunks, first, base);
      NodeSplits(f, key, data, base, first, n);
    }
  }

  lemma SubtreeSplits(f: Compression, key: Cv, chunks: seq<Bytes>, first: nat, base: bv32)
    requires |chunks| >= 2
    ensures var k := Split(|chunks|);
      SubtreeCv(f, key, chunks, first, base)
        == Above(f, key, SubtreeCv(f, key, chunks[..k], first, base), SubtreeCv(f, key, chunks[k..], first + k, base), base)
  {
    hide Split;
  }

  lemma NodeSplits(f: Compression, key: Cv, data: Bytes, base: bv32, first: nat, n: nat)
    requires 2 <= n && first + n <= ChunkCount(|data|)
    ensures var k := Split(n);
      NodeValue(f, key, data, base, first, n)
        == Above(f, key, NodeValue(f, key, data, base, first, k), NodeValue(f, key, data, base, first + k, n - k), base)
  {
    hide Split, ChunkCount;
  }

  /** The value of a node over two values. */
  function Above(f: Compression, key: Cv, l: Cv, r: Cv, base: bv32): Cv {
    var left: Words := l;
    f(key, left + r, 0, 64, base | 4)[..8]
  }

  /** The root node: the only chunk, or the two halves of the tree. */
  function RootNode(f: Compression, key: Cv, data: Bytes, base: bv32): Output {
    var n := ChunkCount(|data|);
    if n == 1 then ChunkNode(f, key, data, 0, base)
    else Output(key, NodeBlock(f, key, data, base, 0, n), 64, base | 4)
  }

  lemma RootIs(f: Compression, key: Cv, data: Bytes, base: bv32)
    ensures RootOutput(f, key, data, base) == RootNode(f, key, data, base)
  {
    hide Pieces, ChunkCount, ChunkOutput, ChunkNode, Split, SubtreeCv;
    CountIs(data);
    var chunks, n := Pieces(data, 1024), ChunkCount(|data|);
    if n == 1 {
      PieceAt(data, 1024, 0, 0);
      ChunkOutputIs(f, key, chunks[0], 0, base);
    } else {
      var k := Split(n);
      SubtreeIsNode(f, key, data, base, 0, k);
      SubtreeIsNode(f, key, data, base, k, n - k);
      assert chunks[..k] == chunks[0..k] && chunks[k..] == chunks[k..n];
    }
  }

  /** Byte j of any digest, of any length: byte j % 4 of word j % 64 / 4 of the
      root node compressed under counter j / 64 with the root flag 8. */
  lemma DigestByte(f: Compression, key: Cv, data: Bytes, base: bv32, n: nat, j: nat)
    requires j < n
    ensures var o := RootNode(f, key, data, base);
      Blake3.Hash(f, key, data, base, n)[j] == WordByte(f(o.cv, o.block, j / 64, o.blen, o.flags | 8)[j % 64 / 4], j % 4)
  {
    hide RootOutput, RootNode;
    RootIs(f, key, data, base);
  }
}
