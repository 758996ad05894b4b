/** The chunk tree of BLAKE3 over any compression function: the form over a list
    of chunks and the form over a range of bytes compute the same digest. */
module Blake3 {
  import opened Blocks
  import opened ModArith
  import opened PowersOfTwo

  const CHUNK_START: bv32 := 1
  const CHUNK_END: bv32 := 2
  const PARENT: bv32 := 4
  const ROOT: bv32 := 8

  type Words = seq<bv32>
  type Cv = w: Words | |w| == 8 witness seq(8, _ => 0)
  type Words16 = w: Words | |w| == 16 witness seq(16, _ => 0)

  /** Chaining value, block, counter, block length and flags to sixteen words. */
  type Compression = (Cv, Words16, nat, nat, bv32) -> Words16

  /** A node whose compression is still to come. */
  datatype Output = Output(cv: Cv, block: Words16, blen: nat, flags: bv32)

  function ChainOf(f: Compression, o: Output, counter: nat): Cv {
    f(o.cv, o.block, counter, o.blen, o.flags)[..8]
  }

  // ----- words of a block -----

  function WideByte(b: Byte): bv32 {
    b as bv32
  }

  function WordFrom(b0: Byte, b1: Byte, b2: Byte, b3: Byte): bv32 {
    WideByte(b0) | (WideByte(b1) << 8) | (WideByte(b2) << 16) | (WideByte(b3) << 24)
  }

  /** The block padded with zeros, as sixteen little-endian words. */
  function Load(b: Bytes): Words16
    requires |b| <= 64
  {
    var p := b + Zeros(64 - |b|);
    seq(16, i requires 0 <= i < 16 => WordFrom(p[4 * i], p[4 * i + 1], p[4 * i + 2], p[4 * i + 3]))
  }

  function WordByte(w: bv32, k: nat): Byte
    requires k < 4
  {
    if k == 0 then (w & 0xff) as Byte
    else if k == 1 then ((w >> 8) & 0xff) as Byte
    else if k == 2 then ((w >> 16) & 0xff) as Byte
    else ((w >> 24) & 0xff) as Byte
  }

  // ----- the form over lists -----

  /** The data in pieces of w bytes, at least one piece, the last one shorter. */
  function Pieces(data: Bytes, w: nat): (ps: seq<Bytes>)
    requires 0 < w
    ensures ps != []
    ensures forall i :: 0 <= i < |ps| ==> |ps[i]| <= w
  {
    if |data| <= w then [data] else [data[..w]] + Pieces(data[w..], w)
  }

  function BlockFlags(base: bv32, i: nat, n: nat): bv32 {
    base | (if i == 0 then CHUNK_START else 0) | (if i + 1 == n then CHUNK_END else 0)
  }

  /** The chaining value after the first i blocks of a chunk. */
  function ChunkChain(f: Compression, key: Cv, blocks: seq<Bytes>, i: nat, index: nat, base: bv32): Cv
    requires i <= |blocks| && forall k :: 0 <= k < |blocks| ==> |blocks[k]| <= 64
  {
    if i == 0 then key
    else f(ChunkChain(f, key, blocks, i - 1, index, base), Load(blocks[i - 1]), index, 64,
           BlockFlags(base, i - 1, |blocks|))[..8]
  }

  function ChunkOutput(f: Compression, key: Cv, chunk: Bytes, index: nat, base: bv32): Output {
    var blocks := Pieces(chunk, 64);
    var last := |blocks| - 1;
    Output(ChunkChain(f, key, blocks, last, index, base), Load(blocks[last]), |blocks[last]|,
           BlockFlags(base, last, |blocks|))
  }

  function ParentOutput(key: Cv, l: Cv, r: Cv, base: bv32): Output {
    var left: Words := l;
    Output(key, left + r, 64, base | PARENT)
  }

  function SubtreeCv(f: Compression, key: Cv, chunks: seq<Bytes>, first: nat, base: bv32): Cv
    requires chunks != []
    decreases |chunks|
  {
    if |chunks| == 1 then ChainOf(f, ChunkOutput(f, key, chunks[0], first, base), first)
    else
      var left := Split(|chunks|);
      var l := SubtreeCv(f, key, chunks[..left], first, base);
      var r := SubtreeCv(f, key, chunks[left..], first + left, base);
      ChainOf(f, ParentOutput(key, l, r, base), 0)
  }

  /** The node whose re-compressions produce the digest. */
  function RootOutput(f: Compression, key: Cv, data: Bytes, base: bv32): Output {
    var chunks := Pieces(data, 1024);
    if |chunks| == 1 then ChunkOutput(f, key, chunks[0], 0, base)
    else
      var left := Split(|chunks|);
      ParentOutput(key, SubtreeCv(f, key, chunks[..left], 0, base),
                   SubtreeCv(f, key, chunks[left..], left, base), base)
  }

  /** Byte j of the extended output: block j / 64 under the root flag. */
  function OutputByte(f: Compression, o: Output, j: nat): Byte {
    WordByte(f(o.cv, o.block, j / 64, o.blen, o.flags | ROOT)[j % 64 / 4], j % 4)
  }

  function RootBytes(f: Compression, o: Output, n: nat): (out: Bytes)
    ensures |out| == n && forall j :: 0 <= j < n ==> out[j] == OutputByte(f, o, j)
  {
    seq(n, j requires 0 <= j < n => OutputByte(f, o, j))
  }

  function Hash(f: Compression, key: Cv, data: Bytes, base: bv32, n: nat): Bytes {
    RootBytes(f, RootOutput(f, key, data, base), n)
  }

  /** A shorter output is a prefix of a longer one. */
  lemma OutputPrefix(f: Compression, key: Cv, data: Bytes, base: bv32, m: nat, n: nat)
    requires m <= n
    ensures Hash(f, key, data, base, n)[..m] == Hash(f, key, data, base, m)
  {
    hide OutputByte, RootOutput;
  }

  // ----- each chunk once, under its own index -----

  /** The tree over ready chaining values, left half the largest power of two. */
  function Tree(f: Compression, key: Cv, cvs: seq<Cv>, base: bv32): Cv
    requires cvs != []
    decreases |cvs|
  {
    if |cvs| == 1 then cvs[0] else ChainOf(f, TopOf(f, key, cvs, base), 0)
  }

  function TopOf(f: Compression, key: Cv, cvs: seq<Cv>, base: bv32): Output
    requires |cvs| >= 2
    decreases |cvs|, 0
  {
    var left := Split(|cvs|);
    ParentOutput(key, Tree(f, key, cvs[..left], base), Tree(f, key, cvs[left..], base), base)
  }

  /** The chaining values of the chunks, chunk i under index first + i. */
  function ChunkCvs(f: Compression, key: Cv, chunks: seq<Bytes>, first: nat, base: bv32): (cvs: seq<Cv>)
    ensures |cvs| == |chunks|
    ensures forall i :: 0 <= i < |cvs| ==> cvs[i] == ChainOf(f, ChunkOutput(f, key, chunks[i], first + i, base), first + i)
  {
    seq(|chunks|, i requires 0 <= i < |chunks| => ChainOf(f, ChunkOutput(f, key, chunks[i], first + i, base), first + i))
  }

  lemma ChunkCvsSplit(f: Compression, key: Cv, chunks: seq<Bytes>, first: nat, base: bv32, left: nat)
    requires left <= |chunks|
    ensures ChunkCvs(f, key, chunks, first, base)[..left] == ChunkCvs(f, key, chunks[..left], first, base)
    ensures ChunkCvs(f, key, chunks, first, base)[left..] == ChunkCvs(f, key, chunks[left..], first + left, base)
  {
    hide ChainOf, ChunkOutput;
  }

  /** The recursion over chunks is the tree over their chaining values: each
      chunk is hashed once, under its own index, and stands in its own place. */
  lemma {:induction false} SubtreeIsTree(f: Compression, key: Cv, chunks: seq<Bytes>, first: nat, base: bv32)
    requires chunks != []
    ensures SubtreeCv(f, key, chunks, first, base) == Tree(f, key, ChunkCvs(f, key, chunks, first, base), base)
    decreases |chunks|
  {
    hide ChainOf, ChunkOutput, Split;
    if |chunks| > 1 {
      var left := Split(|chunks|);
      SubtreeIsTree(f, key, chunks[..left], first, base);
      SubtreeIsTree(f, key, chunks[left..], first + left, base);
      ChunkCvsSplit(f, key, chunks, first, base, left);
    }
  }

  /** The root node of the hash of any data: its one chunk, or the top of the
      tree over the chaining values of all its chunks, counted from zero. */
  lemma RootIsTree(f: Compression, key: Cv, data: Bytes, base: bv32)
    ensures var chunks := Pieces(data, 1024);
            RootOutput(f, key, data, base)
              == if |chunks| == 1 then ChunkOutput(f, key, chunks[0], 0, base)
                 else TopOf(f, key, ChunkCvs(f, key, chunks, 0, base), base)
  {
    hide ChainOf, ChunkOutput, Split, Pieces;
    var chunks := Pieces(data, 1024);
    if |chunks| > 1 {
      var left := Split(|chunks|);
      SubtreeIsTree(f, key, chunks[..left], 0, base);
      SubtreeIsTree(f, key, chunks[left..], left, base);
      ChunkCvsSplit(f, key, chunks, 0, base, left);
    }
  }

  /** The parent nodes of the tree. */
  function Parents(f: Compression, key: Cv, cvs: seq<Cv>, base: bv32): set<Output>
    requires cvs != []
    decreases |cvs|
  {
    if |cvs| == 1 then {}
    else
      var left := Split(|cvs|);
      {TopOf(f, key, cvs, base)} + Parents(f, key, cvs[..left], base) + Parents(f, key, cvs[left..], base)
  }

  /** Two nodes that differ and chain to the same value. */
  predicate ChainCollision(f: Compression, o: Output, o': Output) {
    o != o' && ChainOf(f, o, 0) == ChainOf(f, o', 0)
  }

  lemma ParentInjective(key: Cv, l: Cv, r: Cv, l': Cv, r': Cv, base: bv32)
    requires ParentOutput(key, l, r, base) == ParentOutput(key, l', r', base)
    ensures l == l' && r == r'
  {
    var a: Words, b: Words := l, l';
    assert (a + r)[..8] == a && (b + r')[..8] == b && (a + r)[8..] == r && (b + r')[8..] == r';
  }

  /** No chaining value is left out or used for another: different values give
      different tops, unless a parent node of one tree collides with one of the
      other. */
  lemma {:induction false} TopBinds(f: Compression, key: Cv, a: seq<Cv>, b: seq<Cv>, base: bv32)
      returns (o: Output, o': Output)
    requires 2 <= |a| == |b| && a != b && TopOf(f, key, a, base) == TopOf(f, key, b, base)
    ensures o in Parents(f, key, a, base) && o' in Parents(f, key, b, base) && ChainCollision(f, o, o')
    decreases |a|, 0
  {
    hide ChainOf, Split, ParentOutput, ChainCollision;
    var left := Split(|a|);
    ParentInjective(key, Tree(f, key, a[..left], base), Tree(f, key, a[left..], base),
                    Tree(f, key, b[..left], base), Tree(f, key, b[left..], base), base);
    assert a == a[..left] + a[left..] && b == b[..left] + b[left..];
    if a[..left] != b[..left] {
      o, o' := TreeBinds(f, key, a[..left], b[..left], base);
    } else {
      o, o' := TreeBinds(f, key, a[left..], b[left..], base);
    }
  }

  lemma SingleLeaf(a: seq<Cv>, b: seq<Cv>)
    ensures |a| == |b| == 1 && a[0] == b[0] ==> a == b
  {
  }

  lemma {:induction false} TreeBinds(f: Compression, key: Cv, a: seq<Cv>, b: seq<Cv>, base: bv32)
      returns (o: Output, o': Output)
    requires 1 <= |a| == |b| && a != b && Tree(f, key, a, base) == Tree(f, key, b, base)
    ensures o in Parents(f, key, a, base) && o' in Parents(f, key, b, base) && ChainCollision(f, o, o')
    decreases |a|, 1
  {
    hide ChainOf, TopOf;
    SingleLeaf(a, b);
    if |a| == 1 {
      assert false;
    } else if TopOf(f, key, a, base) == TopOf(f, key, b, base) {
      o, o' := TopBinds(f, key, a, b, base);
    } else {
      o, o' := TopOf(f, key, a, base), TopOf(f, key, b, base);
    }
  }

  // ----- pieces of a range -----

  /** The number of pieces, as the C form counts them. */
  function Count(n: nat, w: nat): nat
    requires 0 < w
  {
    if n == 0 then 1 else (n + w - 1) / w
  }

  lemma CountStep(n: nat, w: nat)
    requires 0 < w < n
    ensures Count(n, w) == 1 + Count(n - w, w)
  {
    var q, r := (n - 1) / w, (n - 1) % w;
    assert n + w - 1 == (q + 1) * w + r;
    DivModUnique(n + w - 1, w, q + 1, r);
    DivModUnique(n - w + w - 1, w, q, r);
  }

  lemma CountOne(n: nat, w: nat)
    requires 0 < w && n <= w
    ensures Count(n, w) == 1
  {
    if n != 0 {
      DivModUnique(n + w - 1, w, 1, n - 1);
    }
  }

  lemma {:induction false} PieceCount(data: Bytes, w: nat)
    requires 0 < w
    ensures |Pieces(data, w)| == Count(|data|, w)
    decreases |data|
  {
    hide Count;
    if |data| <= w {
      CountOne(|data|, w);
    } else {
      PieceCount(data[w..], w);
      CountStep(|data|, w);
    }
  }

  /** Cutting off k whole pieces of w bytes cuts the list of pieces. */
  lemma {:induction false} PiecesSplit(data: Bytes, w: nat, k: nat, at: nat)
    requires 0 < w && 1 <= k && at == k * w && at < |data|
    ensures k < |Pieces(data, w)|
    ensures Pieces(data[..at], w) == Pieces(data, w)[..k]
    ensures Pieces(data[at..], w) == Pieces(data, w)[k..]
    decreases k
  {
    if k == 1 {
      assert data[..at][..] == data[..w];
    } else {
      assert at - w == (k - 1) * w;
      assert w <= at - w by { OneAtLeast(k - 1, w); }
      PiecesSplit(data[w..], w, k - 1, at - w);
      assert data[w..][..at - w] == data[..at][w..];
      assert data[w..][at - w..] == data[at..];
      assert data[..at][..w] == data[..w];
    }
  }

  lemma OneAtLeast(k: nat, w: nat)
    requires 1 <= k
    ensures k * w >= w
  {
  }

  /** Piece i of the data. */
  lemma {:induction false} PieceAt(data: Bytes, w: nat, i: nat, at: nat)
    requires 0 < w && at == i * w && i < |Pieces(data, w)|
    ensures at <= |data|
    ensures Pieces(data, w)[i] == if |data| - at <= w then data[at..] else data[at..at + w]
    ensures i + 1 == |Pieces(data, w)| <==> |data| - at <= w
    decreases i
  {
    if i != 0 {
      var rest, back := data[w..], (i - 1) * w;
      assert at == back + w;
      PiecesTail(data, w);
      PieceAt(rest, w, i - 1, back);
      assert rest[back..] == data[at..];
      if |rest| - back > w {
        assert rest[back..back + w] == data[at..at + w];
      }
    }
  }

  lemma PiecesTail(data: Bytes, w: nat)
    requires 0 < w && |Pieces(data, w)| > 1
    ensures w < |data| && Pieces(data, w)[1..] == Pieces(data[w..], w)
  {
  }
}
