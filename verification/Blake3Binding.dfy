/** BLAKE3 binds its input: equal digests mean equal data of equal length, or
    two different calls of the compression, one made for each input, agree. */
module Blake3Binding {
  import opened Blocks
  import opened PowersOfTwo
  import opened Blake3

  datatype Call = Call(cv: Cv, block: Words16, counter: nat, blen: nat, flags: bv32)

  function Run(f: Compression, c: Call): Words16 {
    f(c.cv, c.block, c.counter, c.blen, c.flags)
  }

  function CallOf(o: Output, counter: nat): Call {
    Call(o.cv, o.block, counter, o.blen, o.flags)
  }

  /** Different calls with the same chaining value. */
  predicate Agree(f: Compression, c: Call, c': Call) {
    c != c' && Run(f, c)[..8] == Run(f, c')[..8]
  }

  /** The flags of the mode use neither of the bits that tell nodes apart. */
  predicate Clean(base: bv32) {
    base & CHUNK_START == 0 && base & PARENT == 0
  }

  // ----- flags and words -----

  lemma StartFlag(base: bv32, i: nat, n: nat, j: nat, m: nat)
    requires Clean(base) && BlockFlags(base, i, n) == BlockFlags(base, j, m)
    ensures i == 0 <==> j == 0
  {
  }

  lemma ParentFlag(base: bv32, i: nat, n: nat)
    requires Clean(base)
    ensures BlockFlags(base, i, n) != base | PARENT
  {
  }

  function Both(x: bv32, y: bv32): bv32 {
    x | y
  }

  predicate NoRoot(x: bv32) {
    x & ROOT == 0
  }

  /** The root flag does not hide the others. */
  lemma RootFlag(base: bv32, x: bv32, y: bv32)
    requires NoRoot(x) && NoRoot(y) && Both(Both(base, x), ROOT) == Both(Both(base, y), ROOT)
    ensures Both(base, x) == Both(base, y)
  {
    hide Both, NoRoot;
    RootBit(base, x);
    RootBit(base, y);
    Reassembled(Both(base, x));
    Reassembled(Both(base, y));
  }

  function RootPart(x: bv32): bv32 {
    x & ROOT
  }

  function OtherPart(x: bv32): bv32 {
    x & 0xFFFF_FFF7
  }

  lemma RootBit(base: bv32, x: bv32)
    requires NoRoot(x)
    ensures RootPart(Both(base, x)) == RootPart(base)
  {
  }

  lemma Reassembled(z: bv32)
    ensures z == Both(OtherPart(Both(z, ROOT)), RootPart(z))
  {
  }

  lemma WordFromInjective(a0: Byte, a1: Byte, a2: Byte, a3: Byte, b0: Byte, b1: Byte, b2: Byte, b3: Byte)
    requires WordFrom(a0, a1, a2, a3) == WordFrom(b0, b1, b2, b3)
    ensures a0 == b0 && a1 == b1 && a2 == b2 && a3 == b3
  {
  }

  lemma WordOfBytes(x: bv32, y: bv32)
    requires WordByte(x, 0) == WordByte(y, 0) && WordByte(x, 1) == WordByte(y, 1)
    requires WordByte(x, 2) == WordByte(y, 2) && WordByte(x, 3) == WordByte(y, 3)
    ensures x == y
  {
  }

  /** A block of known length can be read off its words. */
  lemma LoadInjective(a: Bytes, b: Bytes)
    requires |a| == |b| <= 64 && Load(a) == Load(b)
    ensures a == b
  {
    hide WordFrom;
    var p, q := a + Zeros(64 - |a|), b + Zeros(64 - |b|);
    forall j | 0 <= j < |a| ensures a[j] == b[j] {
      var i := j / 4;
      assert Load(a)[i] == Load(b)[i];
      WordFromInjective(p[4 * i], p[4 * i + 1], p[4 * i + 2], p[4 * i + 3],
                        q[4 * i], q[4 * i + 1], q[4 * i + 2], q[4 * i + 3]);
      assert a[j] == p[j] && b[j] == q[j];
    }
  }

  // ----- pieces -----

  lemma {:induction false} PiecesDetermine(x: Bytes, y: Bytes, w: nat)
    requires 0 < w && Pieces(x, w) == Pieces(y, w)
    ensures x == y
    decreases |x|
  {
    var p, q := Pieces(x, w), Pieces(y, w);
    if |x| <= w {
      assert p[0] == x && |p| == 1;
    } else {
      assert p[1..] == Pieces(x[w..], w) && |p| > 1;
      assert q[1..] == Pieces(y[w..], w);
      PiecesDetermine(x[w..], y[w..], w);
      assert p[0] == x[..w] && q[0] == y[..w];
      assert x == x[..w] + x[w..] && y == y[..w] + y[w..];
    }
  }

  lemma {:induction false} PiecesFull(x: Bytes, w: nat, i: nat)
    requires 0 < w && i + 1 < |Pieces(x, w)|
    ensures |Pieces(x, w)[i]| == w
    decreases i
  {
    if i > 0 {
      PiecesTail(x, w);
      PiecesFull(x[w..], w, i - 1);
    }
  }

  // ----- one chunk -----

  predicate Blocky(blocks: seq<Bytes>) {
    && (forall k :: 0 <= k < |blocks| ==> |blocks[k]| <= 64)
    && (forall k :: 0 <= k < |blocks| - 1 ==> |blocks[k]| == 64)
  }

  lemma PiecesBlocky(chunk: Bytes)
    ensures Blocky(Pieces(chunk, 64))
  {
    hide Pieces;
    forall k | 0 <= k < |Pieces(chunk, 64)| - 1 ensures |Pieces(chunk, 64)[k]| == 64 {
      PiecesFull(chunk, 64, k);
    }
  }

  /** The call for block k, which is not the last. */
  function InnerCall(f: Compression, key: Cv, blocks: seq<Bytes>, k: nat, index: nat, base: bv32): Call
    requires k < |blocks| && Blocky(blocks)
  {
    Call(ChunkChain(f, key, blocks, k, index, base), Load(blocks[k]), index, 64, BlockFlags(base, k, |blocks|))
  }

  /** The calls for the first n blocks. */
  function InnerCalls(f: Compression, key: Cv, blocks: seq<Bytes>, n: nat, index: nat, base: bv32): set<Call>
    requires n <= |blocks| && Blocky(blocks)
  {
    if n == 0 then {}
    else InnerCalls(f, key, blocks, n - 1, index, base) + {InnerCall(f, key, blocks, n - 1, index, base)}
  }

  lemma ChainNext(f: Compression, key: Cv, blocks: seq<Bytes>, n: nat, index: nat, base: bv32)
    requires 1 <= n <= |blocks| && Blocky(blocks)
    ensures ChunkChain(f, key, blocks, n, index, base) == Run(f, InnerCall(f, key, blocks, n - 1, index, base))[..8]
  {
    hide Load, BlockFlags;
  }

  /** Equal chaining values after k and l blocks. */
  lemma {:induction false} BlocksBind(f: Compression, key: Cv, a: seq<Bytes>, k: nat, i: nat, b: seq<Bytes>, l: nat,
                                      j: nat, base: bv32) returns (c: Call, c': Call)
    requires Clean(base) && k < |a| && l < |b| && Blocky(a) && Blocky(b) && (k == 0 <==> l == 0)
    requires ChunkChain(f, key, a, k, i, base) == ChunkChain(f, key, b, l, j, base)
    ensures (k == l && a[..k] == b[..l])
         || (c in InnerCalls(f, key, a, k, i, base) && c' in InnerCalls(f, key, b, l, j, base) && Agree(f, c, c'))
    decreases k
  {
    hide Load, BlockFlags, ChunkChain, Clean;
    if k == 0 {
      c, c' := Nothing(key), Nothing(key);
    } else {
      c, c' := InnerCall(f, key, a, k - 1, i, base), InnerCall(f, key, b, l - 1, j, base);
      ChainNext(f, key, a, k, i, base);
      ChainNext(f, key, b, l, j, base);
      if c == c' {
        StartFlag(base, k - 1, |a|, l - 1, |b|);
        LoadInjective(a[k - 1], b[l - 1]);
        c, c' := BlocksBind(f, key, a, k - 1, i, b, l - 1, j, base);
        assert a[..k] == a[..k - 1] + [a[k - 1]] && b[..l] == b[..l - 1] + [b[l - 1]];
      }
    }
  }

  function Nothing(key: Cv): Call {
    Call(key, seq(16, _ => 0), 0, 0, 0)
  }

  function ChunkCalls(f: Compression, key: Cv, chunk: Bytes, index: nat, base: bv32): set<Call> {
    PiecesBlocky(chunk);
    var blocks := Pieces(chunk, 64);
    InnerCalls(f, key, blocks, |blocks| - 1, index, base)
  }

  /** Chunks with the same output node. */
  lemma ChunkBinds(f: Compression, key: Cv, x: Bytes, i: nat, y: Bytes, j: nat, base: bv32) returns (c: Call, c': Call)
    requires Clean(base) && ChunkOutput(f, key, x, i, base) == ChunkOutput(f, key, y, j, base)
    ensures x == y || (c in ChunkCalls(f, key, x, i, base) && c' in ChunkCalls(f, key, y, j, base) && Agree(f, c, c'))
  {
    hide Load, BlockFlags, ChunkChain, Clean, Pieces, InnerCalls;
    PiecesBlocky(x);
    PiecesBlocky(y);
    var a, b := Pieces(x, 64), Pieces(y, 64);
    var k, l := |a| - 1, |b| - 1;
    StartFlag(base, k, |a|, l, |b|);
    c, c' := BlocksBind(f, key, a, k, i, b, l, j, base);
    if k == l && a[..k] == b[..l] {
      LoadInjective(a[k], b[l]);
      assert a == a[..k] + [a[k]] && b == b[..l] + [b[l]];
      PiecesDetermine(x, y, 64);
    }
  }

  // ----- the tree -----

  /** The node of a subtree whose chaining value is the subtree's. */
  function SubtreeCall(f: Compression, key: Cv, chunks: seq<Bytes>, first: nat, base: bv32): Call
    requires chunks != []
  {
    if |chunks| == 1 then CallOf(ChunkOutput(f, key, chunks[0], first, base), first)
    else
      var left := Split(|chunks|);
      CallOf(ParentOutput(key, SubtreeCv(f, key, chunks[..left], first, base),
                          SubtreeCv(f, key, chunks[left..], first + left, base), base), 0)
  }

  /** All calls that the value of a subtree takes. */
  function SubtreeCalls(f: Compression, key: Cv, chunks: seq<Bytes>, first: nat, base: bv32): set<Call>
    requires chunks != []
    decreases |chunks|, 1
  {
    InsideCalls(f, key, chunks, first, base) + {SubtreeCall(f, key, chunks, first, base)}
  }

  /** Those below its own node. */
  function InsideCalls(f: Compression, key: Cv, chunks: seq<Bytes>, first: nat, base: bv32): set<Call>
    requires chunks != []
    decreases |chunks|, 0
  {
    if |chunks| == 1 then ChunkCalls(f, key, chunks[0], first, base)
    else
      var left := Split(|chunks|);
      SubtreeCalls(f, key, chunks[..left], first, base) + SubtreeCalls(f, key, chunks[left..], first + left, base)
  }

  lemma SubtreeIsCall(f: Compression, key: Cv, chunks: seq<Bytes>, first: nat, base: bv32)
    requires chunks != []
    ensures SubtreeCv(f, key, chunks, first, base) == Run(f, SubtreeCall(f, key, chunks, first, base))[..8]
  {
    hide ChunkOutput, ParentOutput;
  }

  /** A chunk node is never a parent node. */
  lemma NodesApart(f: Compression, key: Cv, chunk: Bytes, index: nat, l: Cv, r: Cv, base: bv32)
    requires Clean(base)
    ensures ChunkOutput(f, key, chunk, index, base) != ParentOutput(key, l, r, base)
  {
    hide BlockFlags, Load, ChunkChain, Pieces, Clean;
    var blocks := Pieces(chunk, 64);
    ParentFlag(base, |blocks| - 1, |blocks|);
  }

  /** Subtrees with the same node, whatever their sizes and places. */
  lemma {:induction false} NodeBinds(f: Compression, key: Cv, a: seq<Bytes>, i: nat, b: seq<Bytes>, j: nat, base: bv32)
      returns (c: Call, c': Call)
    requires Clean(base) && a != [] && b != []
    requires SubtreeCall(f, key, a, i, base).(counter := 0) == SubtreeCall(f, key, b, j, base).(counter := 0)
    ensures (a == b && (|a| > 1 ==> i == j))
         || (c in InsideCalls(f, key, a, i, base) && c' in InsideCalls(f, key, b, j, base) && Agree(f, c, c'))
    decreases |a|, 0
  {
    hide ChunkOutput, ParentOutput, ChunkCalls, Split, SubtreeCv, Agree, Clean;
    NodeKinds(f, key, a, i, b, j, base);
    if |a| == 1 {
      c, c' := ChunkBinds(f, key, a[0], i, b[0], j, base);
      assert a == [a[0]] && b == [b[0]];
    } else {
      var m, n := Split(|a|), Split(|b|);
      ParentInjective(key, SubtreeCv(f, key, a[..m], i, base), SubtreeCv(f, key, a[m..], i + m, base),
                      SubtreeCv(f, key, b[..n], j, base), SubtreeCv(f, key, b[n..], j + n, base), base);
      assert a == a[..m] + a[m..] && b == b[..n] + b[n..];
      c, c' := SubtreeBinds(f, key, a[..m], i, b[..n], j, base);
      if a[..m] == b[..n] && i == j {
        c, c' := SubtreeBinds(f, key, a[m..], i + m, b[n..], j + n, base);
      }
    }
  }

  /** Both nodes are chunks or both are parents. */
  lemma NodeKinds(f: Compression, key: Cv, a: seq<Bytes>, i: nat, b: seq<Bytes>, j: nat, base: bv32)
    requires Clean(base) && a != [] && b != []
    requires SubtreeCall(f, key, a, i, base).(counter := 0) == SubtreeCall(f, key, b, j, base).(counter := 0)
    ensures |a| == 1 <==> |b| == 1
    ensures |a| == 1 ==> ChunkOutput(f, key, a[0], i, base) == ChunkOutput(f, key, b[0], j, base)
    ensures |a| > 1 ==>
      var m, n := Split(|a|), Split(|b|);
      ParentOutput(key, SubtreeCv(f, key, a[..m], i, base), SubtreeCv(f, key, a[m..], i + m, base), base)
      == ParentOutput(key, SubtreeCv(f, key, b[..n], j, base), SubtreeCv(f, key, b[n..], j + n, base), base)
  {
    hide ChunkOutput, ParentOutput, Split, SubtreeCv, Clean;
    if |a| == 1 && |b| > 1 {
      var n := Split(|b|);
      NodesApart(f, key, a[0], i, SubtreeCv(f, key, b[..n], j, base), SubtreeCv(f, key, b[n..], j + n, base), base);
    } else if |a| > 1 && |b| == 1 {
      var m := Split(|a|);
      NodesApart(f, key, b[0], j, SubtreeCv(f, key, a[..m], i, base), SubtreeCv(f, key, a[m..], i + m, base), base);
    }
  }

  /** Subtrees with the same value. */
  lemma {:induction false} SubtreeBinds(f: Compression, key: Cv, a: seq<Bytes>, i: nat, b: seq<Bytes>, j: nat, base: bv32)
      returns (c: Call, c': Call)
    requires Clean(base) && a != [] && b != []
    requires SubtreeCv(f, key, a, i, base) == SubtreeCv(f, key, b, j, base)
    ensures (a == b && i == j)
         || (c in SubtreeCalls(f, key, a, i, base) && c' in SubtreeCalls(f, key, b, j, base) && Agree(f, c, c'))
    decreases |a|, 1
  {
    hide ChunkOutput, ParentOutput, InsideCalls, SubtreeCv, Clean;
    c, c' := SubtreeCall(f, key, a, i, base), SubtreeCall(f, key, b, j, base);
    SubtreeIsCall(f, key, a, i, base);
    SubtreeIsCall(f, key, b, j, base);
    if c == c' {
      NodeKinds(f, key, a, i, b, j, base);
      c, c' := NodeBinds(f, key, a, i, b, j, base);
    }
  }

  // ----- the hash -----

  /** The call that gives the first block of the digest. */
  function RootCall(f: Compression, key: Cv, data: Bytes, base: bv32): Call {
    var o := RootOutput(f, key, data, base);
    Call(o.cv, o.block, 0, o.blen, Both(o.flags, ROOT))
  }

  /** All calls that the first block of the digest takes. */
  function HashCalls(f: Compression, key: Cv, data: Bytes, base: bv32): set<Call> {
    InsideCalls(f, key, Pieces(data, 1024), 0, base) + {RootCall(f, key, data, base)}
  }

  /** The root node is the node of the whole tree. */
  lemma RootIsNode(f: Compression, key: Cv, data: Bytes, base: bv32)
    ensures CallOf(RootOutput(f, key, data, base), 0)
         == SubtreeCall(f, key, Pieces(data, 1024), 0, base).(counter := 0)
  {
    hide ChunkOutput, ParentOutput, Split, SubtreeCv, Pieces;
  }

  /** The flags of the root node: those of the mode and some bits below eight. */
  lemma RootOutputFlags(f: Compression, key: Cv, data: Bytes, base: bv32) returns (x: bv32)
    ensures RootOutput(f, key, data, base).flags == Both(base, x) && NoRoot(x)
  {
    hide Split, SubtreeCv, Pieces, ChunkChain, Load;
    var chunks := Pieces(data, 1024);
    if |chunks| == 1 {
      var blocks := Pieces(chunks[0], 64);
      var last := |blocks| - 1;
      x := (if last == 0 then CHUNK_START else 0) | CHUNK_END;
      LastFlags(base, last);
    } else {
      x := PARENT;
    }
  }

  lemma LastFlags(base: bv32, last: nat)
    ensures var x := (if last == 0 then CHUNK_START else 0) | CHUNK_END;
            BlockFlags(base, last, last + 1) == Both(base, x) && NoRoot(x)
  {
  }

  /** Equal digests agree in the chaining value of the root call. */
  lemma DigestWords(f: Compression, key: Cv, x: Bytes, y: Bytes, base: bv32, n: nat)
    requires 32 <= n && Blake3.Hash(f, key, x, base, n) == Blake3.Hash(f, key, y, base, n)
    ensures Run(f, RootCall(f, key, x, base))[..8] == Run(f, RootCall(f, key, y, base))[..8]
  {
    hide RootOutput, WordByte;
    var p, q := Run(f, RootCall(f, key, x, base)), Run(f, RootCall(f, key, y, base));
    forall i | 0 <= i < 8 ensures p[i] == q[i] {
      forall k | 0 <= k < 4 ensures WordByte(p[i], k) == WordByte(q[i], k) {
        DigestByte(f, key, x, base, n, i, k);
        DigestByte(f, key, y, base, n, i, k);
      }
      WordOfBytes(p[i], q[i]);
    }
  }

  lemma DigestByte(f: Compression, key: Cv, x: Bytes, base: bv32, n: nat, i: nat, k: nat)
    requires 32 <= n && i < 8 && k < 4
    ensures Blake3.Hash(f, key, x, base, n)[4 * i + k] == WordByte(Run(f, RootCall(f, key, x, base))[i], k)
  {
    hide RootOutput, WordByte;
    var j := 4 * i + k;
    assert j / 64 == 0 && j % 64 / 4 == i && j % 4 == k;
  }

  /** The root call determines the root node. */
  lemma SameRoot(f: Compression, key: Cv, x: Bytes, y: Bytes, base: bv32)
    requires RootCall(f, key, x, base) == RootCall(f, key, y, base)
    ensures RootOutput(f, key, x, base) == RootOutput(f, key, y, base)
  {
    hide RootOutput, Both, NoRoot;
    var o, p := RootOutput(f, key, x, base), RootOutput(f, key, y, base);
    var u := RootOutputFlags(f, key, x, base);
    var v := RootOutputFlags(f, key, y, base);
    RootFlag(base, u, v);
  }

  /** Inputs with the same root node. */
  lemma RootBinds(f: Compression, key: Cv, x: Bytes, y: Bytes, base: bv32) returns (c: Call, c': Call)
    requires Clean(base) && RootOutput(f, key, x, base) == RootOutput(f, key, y, base)
    ensures x == y
         || (&& c in InsideCalls(f, key, Pieces(x, 1024), 0, base)
             && c' in InsideCalls(f, key, Pieces(y, 1024), 0, base) && Agree(f, c, c'))
  {
    hide *;
    RootIsNode(f, key, x, base);
    RootIsNode(f, key, y, base);
    c, c' := NodeBinds(f, key, Pieces(x, 1024), 0, Pieces(y, 1024), 0, base);
    if Pieces(x, 1024) == Pieces(y, 1024) {
      PiecesDetermine(x, y, 1024);
    }
  }

  /** For every two inputs of any lengths: digests of 32 bytes or more that agree
      mean that the inputs are the same, or that a call made for one input and a
      different call made for the other have the same chaining value. */
  lemma HashBinds(f: Compression, key: Cv, x: Bytes, y: Bytes, base: bv32, n: nat) returns (c: Call, c': Call)
    requires Clean(base) && 32 <= n && Blake3.Hash(f, key, x, base, n) == Blake3.Hash(f, key, y, base, n)
    ensures x == y
         || (c in HashCalls(f, key, x, base) && c' in HashCalls(f, key, y, base) && Agree(f, c, c'))
  {
    hide RootCall, Blake3.Hash, Clean, InsideCalls, Pieces;
    c, c' := RootCall(f, key, x, base), RootCall(f, key, y, base);
    DigestWords(f, key, x, y, base, n);
    if c == c' {
      SameRoot(f, key, x, y, base);
      c, c' := RootBinds(f, key, x, y, base);
    }
  }
}
