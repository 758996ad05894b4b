/** The hash tree over arrays: all levels in one table of fixed height, and the
    path written into a buffer. */
module MerkleImpl {
  import opened Blocks
  import opened PowersOfTwo
  import opened Merkle

  const MAXLVL: nat := 16

  /** The first rows of the table are the levels. */
  ghost predicate Holds(levels: array2<Digest>, counts: array<nat>, all: seq<seq<Digest>>, n: nat)
    requires n <= |all| && n <= counts.Length && n <= levels.Length0
    reads levels, counts
  {
    && (forall l :: 0 <= l < n ==> counts[l] == |all[l]| <= levels.Length1)
    && (forall l, i :: 0 <= l < n && 0 <= i < |all[l]| ==> levels[l, i] == all[l][i])
  }

  /** Every level but the last has more than one node and lies under its successor. */
  lemma {:induction false} LevelAt(h: Hash, level: seq<Digest>, l: nat)
    requires l < |Levels(h, level)|
    ensures var all := Levels(h, level);
            && |all[l]| <= |level|
            && (l + 1 < |all| <==> |all[l]| > 1)
            && (l + 1 < |all| ==> all[l + 1] == Up(h, all[l]))
    decreases l
  {
    hide Up;
    UpLength(h, level);
    if |level| > 1 && l > 0 {
      LevelAt(h, Up(h, level), l - 1);
    }
  }

  /** k + 1 levels are enough exactly for up to 2^k sectors. */
  lemma {:induction false} LevelCount(h: Hash, level: seq<Digest>, k: nat)
    requires level != []
    ensures |Levels(h, level)| <= k + 1 <==> |level| <= Pow2(k)
    decreases k
  {
    hide Up;
    UpLength(h, level);
    if k == 0 {
    } else if |level| > 1 {
      LevelCount(h, Up(h, level), k - 1);
    }
  }

  /** One node of the level above, or the promoted last node. */
  method Pair(h: Hash, levels: array2<Digest>, l: nat, j: nat, k: nat, cnt: nat)
    requires 0 < l < levels.Length0 && j < cnt <= levels.Length1 && k < levels.Length1
    modifies levels
    ensures levels[l, k] == if j + 1 < cnt then old(NodeHash(h, levels[l - 1, j], levels[l - 1, j + 1])) else old(levels[l - 1, j])
    ensures forall m, i :: 0 <= m < levels.Length0 && 0 <= i < levels.Length1 && (m != l || i != k) ==>
              levels[m, i] == old(levels[m, i])
  {
    if j + 1 < cnt {
      levels[l, k] := NodeHash(h, levels[l - 1, j], levels[l - 1, j + 1]);
    } else {
      levels[l, k] := levels[l - 1, j];
    }
  }

  /** The inner loop: a row from the row below it. */
  method FillLevel(h: Hash, levels: array2<Digest>, l: nat, cnt: nat, ghost below: seq<Digest>) returns (k: nat)
    requires 0 < l < levels.Length0 && 1 < cnt == |below| <= levels.Length1
    requires forall i :: 0 <= i < cnt ==> levels[l - 1, i] == below[i]
    modifies levels
    ensures k == |Up(h, below)| && forall i :: 0 <= i < k ==> levels[l, i] == Up(h, below)[i]
    ensures forall m, i :: 0 <= m < levels.Length0 && 0 <= i < levels.Length1 && m != l ==>
              levels[m, i] == old(levels[m, i])
  {
    hide Up, NodeHash;
    UpLength(h, below);
    var j := 0;
    k := 0;
    while j < cnt
      invariant j == (if 2 * k <= cnt then 2 * k else cnt) && k <= |Up(h, below)|
      invariant j < cnt ==> k < |Up(h, below)|
      invariant j == cnt ==> k == |Up(h, below)|
      invariant forall i :: 0 <= i < cnt ==> levels[l - 1, i] == below[i]
      invariant forall i :: 0 <= i < k ==> levels[l, i] == Up(h, below)[i]
      invariant forall m, i :: 0 <= m < levels.Length0 && 0 <= i < levels.Length1 && m != l ==>
                  levels[m, i] == old(levels[m, i])
      decreases cnt - j
    {
      UpAt(h, below, k);
      Pair(h, levels, l, j, k, cnt);
      j := if j + 1 < cnt then j + 2 else j + 1;
      k := k + 1;
    }
  }

  /** build_levels. */
  method BuildLevelsInto(h: Hash, sectors: seq<Bytes>, levels: array2<Digest>, counts: array<nat>) returns (nl: nat)
    requires 1 <= |sectors| <= Pow2(MAXLVL - 1)
    requires levels.Length0 == counts.Length == MAXLVL && levels.Length1 == |sectors|
    modifies levels, counts
    ensures nl == |Levels(h, Leaves(h, sectors))| <= MAXLVL
    ensures Holds(levels, counts, Levels(h, Leaves(h, sectors)), nl)
  {
    hide Levels, Up, Leaves, Pow2, LeafHash;
    ghost var all := Levels(h, Leaves(h, sectors));
    LevelCount(h, Leaves(h, sectors), MAXLVL - 1);
    var cnt := |sectors|;
    for i := 0 to cnt
      invariant forall k :: 0 <= k < i ==> levels[0, k] == all[0][k]
    {
      levels[0, i] := LeafHash(h, i, sectors[i]);
    }
    counts[0] := cnt;
    nl := 1;
    LevelAt(h, Leaves(h, sectors), 0);
    while cnt > 1
      invariant 1 <= nl <= |all| && cnt == |all[nl - 1]| && (nl < |all| <==> cnt > 1)
      invariant Holds(levels, counts, all, nl)
      decreases cnt
    {
      LevelAt(h, Leaves(h, sectors), nl - 1);
      LevelAt(h, Leaves(h, sectors), nl);
      var k := FillLevel(h, levels, nl, cnt, all[nl - 1]);
      counts[nl] := k;
      cnt := k;
      nl := nl + 1;
    }
  }

  /** compute_root. */
  method ComputeRoot(h: Hash, sectors: seq<Bytes>) returns (root: Digest)
    requires 1 <= |sectors| <= Pow2(MAXLVL - 1)
    ensures root == TreeHash(h, Leaves(h, sectors))
  {
    hide Levels, Leaves, Pow2, BottomUp, TreeHash;
    var levels := new Digest[MAXLVL, |sectors|];
    var counts := new nat[MAXLVL];
    var nl := BuildLevelsInto(h, sectors, levels, counts);
    LastLevel(h, Leaves(h, sectors));
    BottomUpIsTree(h, Leaves(h, sectors));
    root := levels[nl - 1, 0];
  }

  /** Writing a direction and a sibling at the end of a blob. */
  method Emit(blob: array<Byte>, w: nat, step: Step, ghost path: seq<Step>)
    requires w + ENTRY <= blob.Length && 0 <= step.direction < 2 && |step.sibling| == 32
    requires Shaped(path) && blob[..w] == BlobOf(path)
    modifies blob
    ensures blob[..w + ENTRY] == BlobOf(path + [step])
  {
    blob[w] := Low(step.direction);
    for i := 0 to 32
      invariant blob[..w] == BlobOf(path) && blob[w] == Low(step.direction)
      invariant forall j :: 0 <= j < i ==> blob[w + 1 + j] == step.sibling[j]
    {
      blob[w + 1 + i] := step.sibling[i];
    }
    assert (path + [step])[..|path|] == path;
    assert blob[..w + ENTRY] == blob[..w] + [blob[w]] + blob[w + 1..w + ENTRY];
    assert blob[w + 1..w + ENTRY] == step.sibling;
  }

  predicate Shaped(path: seq<Step>) {
    forall i :: 0 <= i < |path| ==> 0 <= path[i].direction < 2 && |path[i].sibling| == 32
  }

  /** One entry, if the node has a sibling. */
  method EmitSibling(levels: array2<Digest>, counts: array<nat>, blob: array<Byte>, lvl: nat, idx: nat, w: nat,
                     ghost level: seq<Digest>, ghost path: seq<Step>) returns (w': nat)
    requires lvl < counts.Length && lvl < levels.Length0 && idx < counts[lvl] == |level| <= levels.Length1
    requires forall i :: 0 <= i < |level| ==> levels[lvl, i] == level[i]
    requires w + ENTRY <= blob.Length && Shaped(path) && blob[..w] == BlobOf(path)
    modifies blob
    ensures w <= w' <= w + ENTRY <= blob.Length && Shaped(path + Sibling(level, idx))
    ensures blob[..w'] == BlobOf(path + Sibling(level, idx))
  {
    hide BlobOf;
    w' := w;
    if idx % 2 == 0 {
      if idx + 1 < counts[lvl] {
        Emit(blob, w, Step(0, levels[lvl, idx + 1]), path);
        w' := w + ENTRY;
      } else {
        assert path + Sibling(level, idx) == path;
      }
    } else {
      Emit(blob, w, Step(1, levels[lvl, idx - 1]), path);
      w' := w + ENTRY;
    }
  }

  /** auth_path: the blob holds the path of the specification, so the check
      accepts it against the root. */
  method AuthPathInto(h: Hash, sectors: seq<Bytes>, index: nat, blob: array<Byte>) returns (w: nat)
    requires index < |sectors| <= Pow2(MAXLVL - 1)
    requires blob.Length >= MAXLVL * ENTRY
    modifies blob
    ensures Shaped(PathOf(h, Leaves(h, sectors), index)) && w <= blob.Length
    ensures blob[..w] == BlobOf(PathOf(h, Leaves(h, sectors), index))
  {
    hide Levels, Leaves, Pow2, PathOf, Up, Sibling, BlobOf;
    var levels := new Digest[MAXLVL, |sectors|];
    var counts := new nat[MAXLVL];
    var nl := BuildLevelsInto(h, sectors, levels, counts);
    ghost var leaves := Leaves(h, sectors);
    ghost var all := Levels(h, leaves);
    ghost var path: seq<Step> := [];
    var idx: nat := index;
    w := 0;
    NoSteps();
    for lvl := 0 to nl - 1
      invariant idx < |all[lvl]| && w <= lvl * ENTRY
      invariant Shaped(path) && blob[..w] == BlobOf(path)
      invariant path + PathOf(h, all[lvl], idx) == PathOf(h, leaves, index)
      invariant Holds(levels, counts, all, nl)
    {
      LevelAt(h, leaves, lvl);
      PathNext(h, all[lvl], idx);
      w := EmitSibling(levels, counts, blob, lvl, idx, w, all[lvl], path);
      path := path + Sibling(all[lvl], idx);
      idx := idx / 2;
    }
    LevelAt(h, leaves, nl - 1);
    PathEnd(h, all[nl - 1], idx);
    assert path + [] == path;
  }

  lemma NoSteps()
    ensures BlobOf([]) == []
  {
  }

  /** So the written blob passes the check against the computed root. */
  method PathAccepted(h: Hash, sectors: seq<Bytes>, index: nat) returns (ok: bool)
    requires index < |sectors| <= Pow2(MAXLVL - 1)
    ensures ok
  {
    hide Leaves, Pow2, PathOf, BlobOf, PathOfBlob, TreeHash, Accepts;
    Pow2Fits();
    var root := ComputeRoot(h, sectors);
    var blob := new Byte[MAXLVL * ENTRY];
    var w := AuthPathInto(h, sectors, index, blob);
    BlobRoundTrip(PathOf(h, Leaves(h, sectors), index));
    PathVerifies(h, sectors, index);
    ok := VerifyBlob(h, index, sectors[index], blob[..w], root);
  }

  lemma Pow2Fits()
    ensures Pow2(MAXLVL - 1) <= TWO_64
  {
    hide Pow2;
    Pow2Of64();
    Pow2Add(15, 49);
    Pow2Positive(15, 49);
  }

  lemma Pow2Positive(a: nat, b: nat)
    ensures Pow2(a) <= Pow2(a) * Pow2(b)
  {
    assert Pow2(b) >= 1;
  }
}
