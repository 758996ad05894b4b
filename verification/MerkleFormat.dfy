/** What the hash tree puts into each string it hashes, and what a path is: the
    tree head and the audit path of RFC 6962 over the sectors themselves. */
module MerkleFormat {
  import opened Blocks
  import opened PowersOfTwo
  import opened Merkle

  // ----- the tree head -----

  /** The tree head of section 2.1 of RFC 6962 over sectors that stand in the
      volume from position `from` on. */
  function TreeHead(h: Hash, sectors: seq<Bytes>, from: nat): Digest
    requires sectors != []
    decreases |sectors|
  {
    if |sectors| == 1 then h([0] + LittleEndian(from, 8) + sectors[0])
    else
      var k := Split(|sectors|);
      h([1] + TreeHead(h, sectors[..k], from) + TreeHead(h, sectors[k..], from + k))
  }

  lemma {:induction false} HeadOfLevel(h: Hash, sectors: seq<Bytes>, from: nat, level: seq<Digest>)
    requires sectors != [] && |level| == |sectors|
    requires forall i :: 0 <= i < |level| ==> level[i] == LeafHash(h, from + i, sectors[i])
    ensures TreeHash(h, level) == TreeHead(h, sectors, from)
    decreases |sectors|
  {
    hide Split, TreeHash, TreeHead, LeafHash;
    if |sectors| == 1 {
      HeadOfOne(h, sectors, from, level);
    } else {
      var k := Split(|sectors|);
      SplitTree(h, level);
      HeadSplits(h, sectors, from);
      HeadOfLevel(h, sectors[..k], from, level[..k]);
      HeadOfLevel(h, sectors[k..], from + k, level[k..]);
    }
  }

  lemma HeadOfOne(h: Hash, sectors: seq<Bytes>, from: nat, level: seq<Digest>)
    requires |sectors| == |level| == 1 && level[0] == LeafHash(h, from, sectors[0])
    ensures TreeHash(h, level) == TreeHead(h, sectors, from)
  {
  }

  lemma HeadSplits(h: Hash, sectors: seq<Bytes>, from: nat)
    requires |sectors| >= 2
    ensures var k := Split(|sectors|);
      1 <= k < |sectors| && TreeHead(h, sectors, from) == h([1] + TreeHead(h, sectors[..k], from) + TreeHead(h, sectors[k..], from + k))
  {
  }

  /** The root of a volume is its tree head. */
  lemma RootIsTreeHead(h: Hash, sectors: seq<Bytes>)
    requires sectors != []
    ensures TreeHash(h, Leaves(h, sectors)) == TreeHead(h, sectors, 0)
  {
    hide TreeHash, TreeHead;
    HeadOfLevel(h, sectors, 0, Leaves(h, sectors));
  }

  // ----- the audit path -----

  /** The audit path of section 2.1.1 of RFC 6962, each sibling with its side. */
  function AuditPath(h: Hash, sectors: seq<Bytes>, from: nat, m: nat): seq<Step>
    requires m < |sectors|
    decreases |sectors|
  {
    if |sectors| == 1 then []
    else
      var k := Split(|sectors|);
      if m < k then AuditPath(h, sectors[..k], from, m) + [Step(0, TreeHead(h, sectors[k..], from + k))]
      else AuditPath(h, sectors[k..], from + k, m - k) + [Step(1, TreeHead(h, sectors[..k], from))]
  }

  /** A path that climbs level by level is the path of its half, and then the
      hash of the other half. */
  lemma {:induction false} PathSplits(h: Hash, level: seq<Digest>, idx: nat)
    requires idx < |level| && |level| >= 2
    ensures var k := Split(|level|);
      PathOf(h, level, idx) == if idx < k then PathOf(h, level[..k], idx) + [Step(0, TreeHash(h, level[k..]))]
                               else PathOf(h, level[k..], idx - k) + [Step(1, TreeHash(h, level[..k]))]
    decreases |level|
  {
    hide PathOf, TreeHash, Up, Sibling, Split;
    var k := Split(|level|);
    var a, b := level[..k], level[k..];
    PathNext(h, level, idx);
    if |level| == 2 {
      PairPath(h, level, idx);
    } else {
      SplitHalf(|level|);
      var up := Up(h, level);
      assert level == a + b;
      HalvesUp(h, a, b);
      assert up[..k / 2] == Up(h, a) && up[k / 2..] == Up(h, b);
      PathSplits(h, up, idx / 2);
      if idx < k {
        PathNext(h, a, idx);
        SiblingInside(level, a, 0, idx);
      } else {
        SiblingInside(level, b, k, idx - k);
        if |b| >= 2 {
          PathNext(h, b, idx - k);
        } else {
          PathEnd(h, b, 0);
          PathEnd(h, up[k / 2..], 0);
          NoSibling(b);
        }
      }
    }
  }

  lemma PairPath(h: Hash, level: seq<Digest>, idx: nat)
    requires |level| == 2 && idx < 2
    ensures Split(2) == 1
    ensures PathOf(h, level, idx) == if idx == 0 then [Step(0, level[1])] else [Step(1, level[0])]
    ensures PathOf(h, level[..1], 0) == [] && PathOf(h, level[1..], 0) == []
    ensures TreeHash(h, level[..1]) == level[0] && TreeHash(h, level[1..]) == level[1]
  {
    hide Up;
    PathEnd(h, Up(h, level), 0);
  }

  lemma SplitHalf(n: nat)
    requires n > 2
    ensures Split(n) % 2 == 0 && 2 <= Split(n) < n && Split((n + 1) / 2) == Split(n) / 2
  {
  }

  /** The level above splits where the level does. */
  lemma HalvesUp(h: Hash, a: seq<Digest>, b: seq<Digest>)
    requires |a| >= 2 && |a| % 2 == 0 && b != []
    ensures Up(h, a + b) == Up(h, a) + Up(h, b) && |Up(h, a)| == |a| / 2
    ensures TreeHash(h, Up(h, a)) == TreeHash(h, a) && TreeHash(h, Up(h, b)) == TreeHash(h, b)
  {
    hide TreeHash, Up;
    UpSplits(h, a, b);
    TreeOfUp(h, a);
    if |b| >= 2 {
      TreeOfUp(h, b);
    } else {
      UpOfOne(h, b);
    }
  }

  /** The sibling is the same one within an even piece of a level, as long as
      the piece ends at an even position or with the level. */
  lemma SiblingInside(level: seq<Digest>, piece: seq<Digest>, from: nat, idx: nat)
    requires idx < |piece| && from + |piece| <= |level| && from % 2 == 0
    requires piece == level[from..from + |piece|]
    requires |piece| % 2 == 0 || from + |piece| == |level|
    ensures Sibling(level, from + idx) == Sibling(piece, idx)
  {
  }

  lemma NoSibling(level: seq<Digest>)
    requires |level| == 1
    ensures Sibling(level, 0) == []
  {
  }

  lemma {:induction false} AuditOfLevel(h: Hash, sectors: seq<Bytes>, from: nat, level: seq<Digest>, m: nat)
    requires m < |sectors| == |level|
    requires forall i :: 0 <= i < |level| ==> level[i] == LeafHash(h, from + i, sectors[i])
    ensures PathOf(h, level, m) == AuditPath(h, sectors, from, m)
    decreases |sectors|
  {
    hide Split, PathOf, TreeHash, TreeHead, LeafHash;
    if |sectors| == 1 {
      PathEnd(h, level, m);
    } else {
      var k := Split(|sectors|);
      PathSplits(h, level, m);
      HeadOfLevel(h, sectors[..k], from, level[..k]);
      HeadOfLevel(h, sectors[k..], from + k, level[k..]);
      if m < k {
        AuditOfLevel(h, sectors[..k], from, level[..k], m);
      } else {
        AuditOfLevel(h, sectors[k..], from + k, level[k..], m - k);
      }
    }
  }

  /** The path that is handed out for a sector is its audit path. */
  lemma PathIsAuditPath(h: Hash, sectors: seq<Bytes>, m: nat)
    requires m < |sectors|
    ensures PathOf(h, Leaves(h, sectors), m) == AuditPath(h, sectors, 0, m)
  {
    hide PathOf, AuditPath;
    AuditOfLevel(h, sectors, 0, Leaves(h, sectors), m);
  }

  // ----- checking a path -----

  /** Every further step hashes the digest reached so far with the sibling, the
      left one first. */
  lemma ClimbStep(h: Hash, d: Digest, path: seq<Step>, direction: int, sibling: Bytes)
    ensures Climb(h, d, []) == d
    ensures Climb(h, d, path + [Step(direction, sibling)])
         == if direction == 0 then h([1] + Climb(h, d, path) + sibling) else h([1] + sibling + Climb(h, d, path))
  {
    assert (path + [Step(direction, sibling)])[..|path|] == path;
  }

  /** A path of one step is checked against the tagged leaf string. */
  lemma AcceptsOne(h: Hash, index: nat, data: Bytes, sibling: Bytes, root: Digest)
    ensures Accepts(h, index, data, [], root) <==> h([0] + LittleEndian(index, 8) + data) == root
    ensures Accepts(h, index, data, [Step(0, sibling)], root)
       <==> h([1] + h([0] + LittleEndian(index, 8) + data) + sibling) == root
    ensures Accepts(h, index, data, [Step(1, sibling)], root)
       <==> h([1] + sibling + h([0] + LittleEndian(index, 8) + data)) == root
  {
    var d := LeafHash(h, index, data);
    assert [] + [Step(0, sibling)] == [Step(0, sibling)] && [] + [Step(1, sibling)] == [Step(1, sibling)];
    ClimbStep(h, d, [], 0, sibling);
    ClimbStep(h, d, [], 1, sibling);
  }

  /** Entry i of a path in its byte form: one direction byte, 32 of digest. */
  lemma {:induction false} BlobEntry(blob: Bytes, i: nat)
    requires |blob| % 33 == 0 && 33 * (i + 1) <= |blob|
    ensures i < |PathOfBlob(blob)|
    ensures PathOfBlob(blob)[i] == Step(Value(blob[33 * i]), blob[33 * i + 1..33 * i + 33])
    decreases |blob|
  {
    hide PathOfBlob, Value;
    var n := |blob| - 33;
    BlobLast(blob);
    if 33 * i < n {
      BlobEntry(blob[..n], i);
      assert blob[..n][33 * i + 1..33 * i + 33] == blob[33 * i + 1..33 * i + 33];
    }
  }
}
