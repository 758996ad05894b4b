/** The hash tree over a volume's sectors: leaves bound to their index, lone
    nodes promoted, and authentication paths.  The hash is any function to
    32-byte digests. */
module Merkle {
  import opened Blocks
  import opened PowersOfTwo
  import opened Wrappers

  const TWO_64: int := 0x1_0000_0000_0000_0000

  /** A sibling and its direction: zero when it stands on the right. */
  datatype Step = Step(direction: int, sibling: Bytes)

  // ----- leaf and node strings -----

  function LeafInput(index: nat, data: Bytes): Bytes {
    [0] + LittleEndian(index, 8) + data
  }

  function NodeInput(l: Bytes, r: Bytes): Bytes {
    [1] + l + r
  }

  function LeafHash(h: Hash, index: nat, data: Bytes): Digest {
    h(LeafInput(index, data))
  }

  function NodeHash(h: Hash, l: Bytes, r: Bytes): Digest {
    h(NodeInput(l, r))
  }

  /** The tag, the index and the data can be read off a leaf string. */
  lemma LeafInputInjective(i: nat, data: Bytes, j: nat, other: Bytes)
    requires i < TWO_64 && j < TWO_64 && LeafInput(i, data) == LeafInput(j, other)
    ensures i == j && data == other
  {
    var s := LeafInput(i, data);
    assert s[1..9] == LittleEndian(i, 8) && s[9..] == data;
    assert s[1..9] == LittleEndian(j, 8) && s[9..] == other;
    Pow2Of64();
    LittleEndianInjective(i, j, 8);
  }

  lemma NodeInputInjective(l: Bytes, r: Bytes, x: Bytes, y: Bytes)
    requires |l| == |x| == 32 || |r| == |y| == 32
    requires NodeInput(l, r) == NodeInput(x, y)
    ensures l == x && r == y
  {
    var s := NodeInput(l, r);
    assert |l| == |x|;
    assert s[1..1 + |l|] == l && s[1 + |l|..] == r;
    assert s[1..1 + |x|] == x && s[1 + |x|..] == y;
  }

  // ----- the tree from the bottom up -----

  /** The leaf digests from position i on. */
  function Leaves(h: Hash, sectors: seq<Bytes>): (level: seq<Digest>)
    ensures |level| == |sectors|
    ensures forall i :: 0 <= i < |level| ==> level[i] == LeafHash(h, i, sectors[i])
  {
    seq(|sectors|, i requires 0 <= i < |sectors| => LeafHash(h, i, sectors[i]))
  }

  /** The level above: neighbours hashed in pairs, a lone last node promoted. */
  function Up(h: Hash, level: seq<Digest>): (next: seq<Digest>)
    ensures |next| == (|level| + 1) / 2
  {
    if |level| < 2 then level else [NodeHash(h, level[0], level[1])] + Up(h, level[2..])
  }

  function Levels(h: Hash, level: seq<Digest>): (levels: seq<seq<Digest>>)
    ensures levels != [] && levels[0] == level
    decreases |level|
  {
    if |level| <= 1 then [level] else [level] + Levels(h, Up(h, level))
  }

  /** The single node of the last level. */
  function BottomUp(h: Hash, level: seq<Digest>): Digest
    requires level != []
    decreases |level|
  {
    if |level| == 1 then level[0] else BottomUp(h, Up(h, level))
  }

  lemma {:induction false} UpAt(h: Hash, level: seq<Digest>, k: nat)
    requires k < |Up(h, level)|
    ensures Up(h, level)[k] == if 2 * k + 1 < |level| then NodeHash(h, level[2 * k], level[2 * k + 1]) else level[2 * k]
    decreases |level|
  {
    if |level| >= 2 && k > 0 {
      UpAt(h, level[2..], k - 1);
    }
  }

  method BuildLevels(h: Hash, sectors: seq<Bytes>) returns (levels: seq<seq<Digest>>)
    requires |sectors| <= TWO_64
    ensures levels == Levels(h, Leaves(h, sectors))
  {
    hide Levels, Up;
    var level: seq<Digest> := [];
    for i := 0 to |sectors|
      invariant level == Leaves(h, sectors)[..i]
    {
      level := level + [LeafHash(h, i, sectors[i])];
    }
    assert level == Leaves(h, sectors);
    levels := [level];
    ghost var below: seq<seq<Digest>> := [];
    while |level| > 1
      invariant levels == below + [level]
      invariant below + Levels(h, level) == Levels(h, Leaves(h, sectors))
      decreases |level|
    {
      var next: seq<Digest> := [];
      var i := 0;
      UpLength(h, level);
      while i < |level|
        invariant 0 <= i <= |level| && |next| == (i + 1) / 2 && (i % 2 == 0 || i == |level|)
        invariant next == Up(h, level)[..|next|]
        decreases |level| - i
      {
        UpAt(h, level, |next|);
        if i + 1 < |level| {
          next := next + [NodeHash(h, level[i], level[i + 1])];
          i := i + 2;
        } else {
          next := next + [level[i]];
          i := i + 1;
        }
      }
      assert next == Up(h, level);
      LevelsNext(h, level);
      assert (below + [level]) + Levels(h, next) == below + Levels(h, level);
      below := below + [level];
      level := next;
      levels := levels + [level];
    }
    LevelsEnd(h, level);
  }

  lemma UpLength(h: Hash, level: seq<Digest>)
    ensures |Up(h, level)| == (|level| + 1) / 2
  {
  }

  lemma LevelsNext(h: Hash, level: seq<Digest>)
    requires |level| > 1
    ensures Levels(h, level) == [level] + Levels(h, Up(h, level))
  {
  }

  lemma LevelsEnd(h: Hash, level: seq<Digest>)
    requires |level| <= 1
    ensures Levels(h, level) == [level]
  {
  }

  lemma {:induction false} LastLevel(h: Hash, level: seq<Digest>)
    ensures var levels := Levels(h, level); var last := levels[|levels| - 1];
            if level == [] then last == [] else last == [BottomUp(h, level)]
    decreases |level|
  {
    if |level| > 1 {
      LastLevel(h, Up(h, level));
    }
  }

  /** The root, or nothing for an empty volume, where the source raises an
      IndexError. */
  method Root(h: Hash, sectors: seq<Bytes>) returns (r: Option<Digest>)
    requires |sectors| <= TWO_64
    ensures r == if sectors == [] then None else Some(TreeHash(h, Leaves(h, sectors)))
  {
    hide Levels, BottomUp, TreeHash;
    var levels := BuildLevels(h, sectors);
    LastLevel(h, Leaves(h, sectors));
    if sectors != [] {
      BottomUpIsTree(h, Leaves(h, sectors));
    }
    var last := levels[|levels| - 1];
    r := if last == [] then None else Some(last[0]);
  }

  // ----- the recursive tree of RFC 6962 -----

  /** The tree hash of section 2.1 of RFC 6962 over leaf digests. */
  function TreeHash(h: Hash, level: seq<Digest>): Digest
    requires level != []
    decreases |level|
  {
    if |level| == 1 then level[0]
    else var k := Split(|level|); NodeHash(h, TreeHash(h, level[..k]), TreeHash(h, level[k..]))
  }

  lemma {:induction false} UpSplits(h: Hash, a: seq<Digest>, b: seq<Digest>)
    requires |a| % 2 == 0
    ensures Up(h, a + b) == Up(h, a) + Up(h, b)
    decreases |a|
  {
    hide Up, NodeHash;
    if a == [] {
      UpOfNone(h);
      assert a + b == b;
    } else {
      var c := a + b;
      UpSplits(h, a[2..], b);
      assert c[2..] == a[2..] + b && c[0] == a[0] && c[1] == a[1];
      UpOfMore(h, c);
      UpOfMore(h, a);
      assert ([NodeHash(h, a[0], a[1])] + Up(h, a[2..])) + Up(h, b) == [NodeHash(h, a[0], a[1])] + (Up(h, a[2..]) + Up(h, b));
    }
  }

  lemma UpOfNone(h: Hash)
    ensures Up(h, []) == []
  {
  }

  lemma UpOfMore(h: Hash, level: seq<Digest>)
    requires |level| >= 2
    ensures Up(h, level) == [NodeHash(h, level[0], level[1])] + Up(h, level[2..])
  {
    hide NodeHash;
  }

  /** Pairing up the leaves does not change the tree hash. */
  lemma {:induction false} TreeOfUp(h: Hash, level: seq<Digest>)
    requires |level| >= 2
    ensures TreeHash(h, Up(h, level)) == TreeHash(h, level)
    decreases |level|
  {
    hide TreeHash, Up;
    if |level| == 2 {
      TreeOfPair(h, level);
    } else {
      var k := Split(|level|);
      var a, b := level[..k], level[k..];
      assert level == a + b;
      UpSplits(h, a, b);
      TreeOfUp(h, a);
      if |b| >= 2 {
        TreeOfUp(h, b);
      } else {
        UpOfOne(h, b);
      }
      var up := Up(h, level);
      assert Split(|up|) == k / 2;
      assert up[..k / 2] == Up(h, a) && up[k / 2..] == Up(h, b);
      SplitTree(h, level);
      SplitTree(h, up);
    }
  }

  lemma UpOfOne(h: Hash, level: seq<Digest>)
    requires |level| == 1
    ensures Up(h, level) == level
  {
  }

  lemma SplitTree(h: Hash, level: seq<Digest>)
    requires |level| >= 2
    ensures var k := Split(|level|);
            1 <= k < |level| && TreeHash(h, level) == h(NodeInput(TreeHash(h, level[..k]), TreeHash(h, level[k..])))
  {
  }

  lemma TreeOfPair(h: Hash, level: seq<Digest>)
    requires |level| == 2
    ensures TreeHash(h, Up(h, level)) == TreeHash(h, level)
  {
    assert level[2..] == [];
    assert Up(h, level) == [NodeHash(h, level[0], level[1])];
    assert Split(2) == 1;
  }

  /** The bottom-up root with lone-node promotion is the recursive tree hash. */
  lemma {:induction false} BottomUpIsTree(h: Hash, level: seq<Digest>)
    requires level != []
    ensures BottomUp(h, level) == TreeHash(h, level)
    decreases |level|
  {
    if |level| >= 2 {
      TreeOfUp(h, level);
      BottomUpIsTree(h, Up(h, level));
    }
  }

  // ----- authentication paths -----

  /** The sibling of node idx in its level, if it has one. */
  function Sibling(level: seq<Digest>, idx: nat): seq<Step>
    requires idx < |level|
  {
    if idx % 2 == 1 then [Step(1, level[idx - 1])]
    else if idx + 1 < |level| then [Step(0, level[idx + 1])]
    else []
  }

  function PathOf(h: Hash, level: seq<Digest>, idx: nat): seq<Step>
    requires idx < |level|
    decreases |level|
  {
    if |level| == 1 then [] else Sibling(level, idx) + PathOf(h, Up(h, level), idx / 2)
  }

  /** Indexing a list: a negative index counts from the end, and one outside
      raises an IndexError. */
  function Item(level: seq<Digest>, k: int): Option<Digest> {
    if 0 <= k < |level| then Some(level[k])
    else if -|level| <= k < 0 then Some(level[|level| + k])
    else None
  }

  /** What auth_path appends at one level, for any index. */
  function SiblingAt(level: seq<Digest>, idx: int): Option<seq<Step>> {
    if idx % 2 == 0 && idx + 1 >= |level| then Some([])
    else
      var direction := if idx % 2 == 0 then 0 else 1;
      var sibling := Item(level, if idx % 2 == 0 then idx + 1 else idx - 1);
      if sibling.None? then None else Some([Step(direction, sibling.value)])
  }

  /** The path for any index, or nothing where an IndexError is raised. */
  function PathAt(h: Hash, level: seq<Digest>, idx: int): Option<seq<Step>>
    decreases |level|
  {
    if |level| <= 1 then Some([])
    else
      var head, tail := SiblingAt(level, idx), PathAt(h, Up(h, level), idx / 2);
      if head.None? || tail.None? then None else Some(head.value + tail.value)
  }

  /** For a sector of the volume it is the path of the tree. */
  lemma {:induction false} PathInRange(h: Hash, level: seq<Digest>, idx: nat)
    requires idx < |level|
    ensures PathAt(h, level, idx) == Some(PathOf(h, level, idx))
    decreases |level|
  {
    if |level| > 1 {
      PathInRange(h, Up(h, level), idx / 2);
    }
  }

  /** auth_path, for every volume and every index. */
  method AuthPath(h: Hash, sectors: seq<Bytes>, index: int) returns (r: Option<seq<Step>>)
    requires |sectors| <= TWO_64
    ensures r == PathAt(h, Leaves(h, sectors), index)
    ensures 0 <= index < |sectors| ==> r == Some(PathOf(h, Leaves(h, sectors), index))
  {
    hide Levels, PathOf, PathAt, Up, SiblingAt;
    if 0 <= index < |sectors| {
      PathInRange(h, Leaves(h, sectors), index);
    }
    var levels := BuildLevels(h, sectors);
    var path: seq<Step> := [];
    var idx := index;
    var n := 0;
    ghost var level := Leaves(h, sectors);
    AfterNothing(PathAt(h, level, idx));
    while n < |levels| - 1
      invariant 0 <= n < |levels|
      invariant levels[n..] == Levels(h, level)
      invariant PathAt(h, Leaves(h, sectors), index) == After(path, PathAt(h, level, idx))
    {
      assert levels[n] == levels[n..][0] == level;
      LevelsLonger(h, level);
      PathAtNext(h, level, idx);
      var sibling := StepOf(levels[n], idx);
      if sibling.None? {
        return None;
      }
      path := path + sibling.value;
      assert levels[n + 1..] == levels[n..][1..];
      level := Up(h, level);
      idx := idx / 2;
      n := n + 1;
    }
    LevelsShort(h, level);
    PathAtEnd(h, level, idx);
    assert path + [] == path;
    r := Some(path);
  }

  /** The body of the path loop. */
  method StepOf(lvl: seq<Digest>, idx: int) returns (s: Option<seq<Step>>)
    ensures s == SiblingAt(lvl, idx)
  {
    s := Some([]);
    if idx % 2 == 0 {
      if idx + 1 < |lvl| {
        var d := Item(lvl, idx + 1);
        s := if d.None? then None else Some([Step(0, d.value)]);
      }
    } else {
      var d := Item(lvl, idx - 1);
      s := if d.None? then None else Some([Step(1, d.value)]);
    }
  }

  function After(path: seq<Step>, rest: Option<seq<Step>>): Option<seq<Step>> {
    if rest.None? then None else Some(path + rest.value)
  }

  lemma AfterNothing(rest: Option<seq<Step>>)
    ensures After([], rest) == rest
  {
    if rest.Some? {
      assert [] + rest.value == rest.value;
    }
  }

  lemma PathAtNext(h: Hash, level: seq<Digest>, idx: int)
    requires |level| > 1
    ensures var s := SiblingAt(level, idx);
            && (s.None? ==> PathAt(h, level, idx) == None)
            && (s.Some? ==> forall path: seq<Step> :: After(path, PathAt(h, level, idx))
                              == After(path + s.value, PathAt(h, Up(h, level), idx / 2)))
  {
    var s, tail := SiblingAt(level, idx), PathAt(h, Up(h, level), idx / 2);
    if s.Some? && tail.Some? {
      forall path: seq<Step> ensures After(path, PathAt(h, level, idx)) == After(path + s.value, tail) {
        assert path + (s.value + tail.value) == (path + s.value) + tail.value;
      }
    }
  }

  lemma PathAtEnd(h: Hash, level: seq<Digest>, idx: int)
    requires |level| <= 1
    ensures PathAt(h, level, idx) == Some([])
  {
  }

  lemma LevelsLonger(h: Hash, level: seq<Digest>)
    ensures |Levels(h, level)| > 1 ==>
      |level| > 1 && Levels(h, level)[1..] == Levels(h, Up(h, level)) && |Up(h, level)| == (|level| + 1) / 2
  {
  }

  lemma LevelsShort(h: Hash, level: seq<Digest>)
    ensures |Levels(h, level)| == 1 ==> |level| <= 1
  {
  }

  lemma PathNext(h: Hash, level: seq<Digest>, idx: nat)
    requires idx < |level| && |level| > 1
    ensures idx / 2 < |Up(h, level)|
    ensures PathOf(h, level, idx) == Sibling(level, idx) + PathOf(h, Up(h, level), idx / 2)
  {
  }

  lemma PathEnd(h: Hash, level: seq<Digest>, idx: nat)
    requires idx < |level| <= 1
    ensures PathOf(h, level, idx) == []
  {
  }

  /** The strings that the verifier hashes on the way up, and the last digest. */
  function StepInput(d: Digest, s: Step): Bytes {
    if s.direction == 0 then NodeInput(d, s.sibling) else NodeInput(s.sibling, d)
  }

  function Climb(h: Hash, d: Digest, path: seq<Step>): Digest {
    if path == [] then d
    else h(StepInput(Climb(h, d, path[..|path| - 1]), path[|path| - 1]))
  }

  predicate Accepts(h: Hash, index: nat, data: Bytes, path: seq<Step>, root: Digest) {
    Climb(h, LeafHash(h, index, data), path) == root
  }

  method VerifyPath(h: Hash, index: nat, data: Bytes, path: seq<Step>, root: Digest) returns (ok: bool)
    requires index < TWO_64
    ensures ok == Accepts(h, index, data, path, root)
  {
    var d := LeafHash(h, index, data);
    for n := 0 to |path|
      invariant d == Climb(h, LeafHash(h, index, data), path[..n])
    {
      assert path[..n + 1][..n] == path[..n];
      d := if path[n].direction == 0 then NodeHash(h, d, path[n].sibling) else NodeHash(h, path[n].sibling, d);
    }
    assert path[..|path|] == path;
    ok := d == root;
  }

  lemma {:induction false} ClimbAppend(h: Hash, d: Digest, p: seq<Step>, q: seq<Step>)
    ensures Climb(h, d, p + q) == Climb(h, Climb(h, d, p), q)
    decreases |q|
  {
    if q == [] {
      assert p + q == p;
    } else {
      ClimbAppend(h, d, p, q[..|q| - 1]);
      assert (p + q)[..|p + q| - 1] == p + q[..|q| - 1];
    }
  }

  lemma SiblingReachesUp(h: Hash, level: seq<Digest>, idx: nat)
    requires idx < |level| && |level| > 1
    ensures Climb(h, level[idx], Sibling(level, idx)) == Up(h, level)[idx / 2]
  {
    hide Climb, Up, StepInput;
    UpAt(h, level, idx / 2);
    var d := level[idx];
    if idx % 2 == 1 {
      ClimbOne(h, d, Step(1, level[idx - 1]));
      assert 2 * (idx / 2) == idx - 1;
    } else if idx + 1 < |level| {
      ClimbOne(h, d, Step(0, level[idx + 1]));
      assert 2 * (idx / 2) == idx;
    } else {
      ClimbNone(h, d);
      assert 2 * (idx / 2) == idx;
    }
  }

  lemma ClimbNone(h: Hash, d: Digest)
    ensures Climb(h, d, []) == d
  {
  }

  lemma ClimbOne(h: Hash, d: Digest, s: Step)
    ensures Climb(h, d, [s]) == if s.direction == 0 then NodeHash(h, d, s.sibling) else NodeHash(h, s.sibling, d)
  {
    assert [s][..0] == [];
  }

  lemma {:induction false} PathReachesRoot(h: Hash, level: seq<Digest>, idx: nat)
    requires idx < |level|
    ensures Climb(h, level[idx], PathOf(h, level, idx)) == BottomUp(h, level)
    decreases |level|
  {
    if |level| > 1 {
      ClimbAppend(h, level[idx], Sibling(level, idx), PathOf(h, Up(h, level), idx / 2));
      SiblingReachesUp(h, level, idx);
      PathReachesRoot(h, Up(h, level), idx / 2);
    }
  }

  /** Completeness: every path that is handed out verifies. */
  lemma PathVerifies(h: Hash, sectors: seq<Bytes>, index: nat)
    requires index < |sectors| <= TWO_64
    ensures Accepts(h, index, sectors[index], PathOf(h, Leaves(h, sectors), index), TreeHash(h, Leaves(h, sectors)))
  {
    PathReachesRoot(h, Leaves(h, sectors), index);
    BottomUpIsTree(h, Leaves(h, sectors));
  }

  // ----- paths as bytes -----

  const ENTRY := 33

  /** The steps of a blob of entries: a direction byte, then a digest. */
  function PathOfBlob(blob: Bytes): (path: seq<Step>)
    requires |blob| % ENTRY == 0
    ensures |path| * ENTRY == |blob|
  {
    if blob == [] then []
    else var n := |blob| - ENTRY; PathOfBlob(blob[..n]) + [Step(Value(blob[n]), blob[n + 1..])]
  }

  /** The blob of a path whose directions are bytes. */
  function BlobOf(path: seq<Step>): (blob: Bytes)
    requires forall i :: 0 <= i < |path| ==> 0 <= path[i].direction < 256 && |path[i].sibling| == 32
    ensures |blob| == |path| * ENTRY
  {
    if path == [] then []
    else var n := |path| - 1; BlobOf(path[..n]) + [Low(path[n].direction)] + path[n].sibling
  }

  lemma BlobLast(blob: Bytes)
    requires blob != [] && |blob| % ENTRY == 0
    ensures var n := |blob| - ENTRY;
            0 <= n && n % ENTRY == 0 && PathOfBlob(blob) == PathOfBlob(blob[..n]) + [Step(Value(blob[n]), blob[n + 1..])]
  {
  }

  lemma {:induction false} BlobRoundTrip(path: seq<Step>)
    requires forall i :: 0 <= i < |path| ==> 0 <= path[i].direction < 256 && |path[i].sibling| == 32
    ensures PathOfBlob(BlobOf(path)) == path
  {
    hide PathOfBlob, Low, Value;
    if path == [] {
      EmptyBlob();
    } else {
      var n := |path| - 1;
      var before, blob := BlobOf(path[..n]), BlobOf(path);
      BlobRoundTrip(path[..n]);
      assert blob == before + [Low(path[n].direction)] + path[n].sibling;
      assert |before| == |blob| - ENTRY && blob[..|before|] == before;
      assert blob[|before|] == Low(path[n].direction) && blob[|before| + 1..] == path[n].sibling;
      BlobLast(blob);
      ValueOfLow(path[n].direction);
    }
  }

  lemma WholeEntries(w: nat, n: nat)
    requires n % ENTRY == 0 && w % ENTRY == 0 && w < n
    ensures w + ENTRY <= n && (w + ENTRY) % ENTRY == 0
  {
  }

  lemma BlobPrefix(blob: Bytes, w: nat)
    requires |blob| % ENTRY == 0 && w % ENTRY == 0 && w < |blob|
    ensures w + ENTRY <= |blob| && (w + ENTRY) % ENTRY == 0
    ensures PathOfBlob(blob[..w + ENTRY]) == PathOfBlob(blob[..w]) + [Step(Value(blob[w]), blob[w + 1..w + ENTRY])]
  {
    hide PathOfBlob, Value;
    WholeEntries(w, |blob|);
    var b := blob[..w + ENTRY];
    BlobLast(b);
    assert b[..w] == blob[..w] && b[w] == blob[w] && b[w + 1..] == blob[w + 1..w + ENTRY];
  }

  /** The check on the byte form, where any direction but zero means left. */
  method VerifyBlob(h: Hash, index: nat, data: Bytes, blob: Bytes, root: Digest) returns (ok: bool)
    requires index < TWO_64 && |blob| % ENTRY == 0
    ensures ok == Accepts(h, index, data, PathOfBlob(blob), root)
  {
    hide PathOfBlob, LeafHash, Climb, StepInput, NodeHash;
    var d := LeafHash(h, index, data);
    var w := 0;
    ClimbNone(h, d);
    assert blob[..0] == [];
    EmptyBlob();
    while w < |blob|
      invariant 0 <= w <= |blob| && w % ENTRY == 0
      invariant d == Climb(h, LeafHash(h, index, data), PathOfBlob(blob[..w]))
    {
      BlobPrefix(blob, w);
      ghost var path := PathOfBlob(blob[..w]);
      var dir := Value(blob[w]);
      var sib := blob[w + 1..w + ENTRY];
      ClimbAppend(h, LeafHash(h, index, data), path, [Step(dir, sib)]);
      ClimbOne(h, d, Step(dir, sib));
      d := if dir == 0 then NodeHash(h, d, sib) else NodeHash(h, sib, d);
      w := w + ENTRY;
    }
    assert blob[..|blob|] == blob;
    ok := d == root;
  }

  lemma EmptyBlob()
    ensures PathOfBlob([]) == []
  {
  }

  // ----- soundness -----

  function LeafInputs(sectors: seq<Bytes>): set<Bytes> {
    set i | 0 <= i < |sectors| :: LeafInput(i, sectors[i])
  }

  /** The node strings of one bottom-up pass over a level. */
  function PairInputs(level: seq<Digest>): set<Bytes> {
    if |level| < 2 then {} else {NodeInput(level[0], level[1])} + PairInputs(level[2..])
  }

  /** The node strings that building the levels hashes. */
  function NodeInputs(h: Hash, level: seq<Digest>): set<Bytes>
    decreases |level|
  {
    if |level| <= 1 then {} else PairInputs(level) + NodeInputs(h, Up(h, level))
  }

  /** Everything that is hashed to compute the root. */
  function TreeInputs(h: Hash, sectors: seq<Bytes>): set<Bytes> {
    LeafInputs(sectors) + NodeInputs(h, Leaves(h, sectors))
  }

  /** Everything that is hashed to check a path. */
  function PathInputs(h: Hash, d: Digest, path: seq<Step>): set<Bytes> {
    if path == [] then {}
    else
      var rest := path[..|path| - 1];
      PathInputs(h, d, rest) + {StepInput(Climb(h, d, rest), path[|path| - 1])}
  }

  function CheckInputs(h: Hash, index: nat, data: Bytes, path: seq<Step>): set<Bytes> {
    {LeafInput(index, data)} + PathInputs(h, LeafHash(h, index, data), path)
  }

  /** A string of one set and a different string of the other have one hash. */
  predicate Collision(h: Hash, xs: set<Bytes>, ys: set<Bytes>) {
    exists x, y :: x in xs && y in ys && x != y && h(x) == h(y)
  }

  lemma {:induction false} PairsSplit(a: seq<Digest>, b: seq<Digest>)
    requires |a| % 2 == 0
    ensures PairInputs(a + b) == PairInputs(a) + PairInputs(b)
    decreases |a|
  {
    if a == [] {
      assert a + b == b;
    } else {
      PairsSplit(a[2..], b);
      assert (a + b)[2..] == a[2..] + b;
    }
  }

  /** The recursive tree hashes its two halves and the string that joins them. */
  lemma {:induction false} NodeInputsSplit(h: Hash, level: seq<Digest>)
    requires |level| >= 2
    ensures var k := Split(|level|);
            NodeInputs(h, level) == NodeInputs(h, level[..k]) + NodeInputs(h, level[k..])
              + {NodeInput(TreeHash(h, level[..k]), TreeHash(h, level[k..]))}
    decreases |level|
  {
    hide TreeHash, Up;
    var k := Split(|level|);
    var a, b := level[..k], level[k..];
    if |level| == 2 {
      NodeInputsOfPair(h, level);
    } else {
      assert level == a + b;
      var up := Up(h, level);
      UpSplits(h, a, b);
      PairsSplit(a, b);
      NodeInputsSplit(h, up);
      assert Split(|up|) == k / 2 && |Up(h, a)| == k / 2;
      assert up[..k / 2] == Up(h, a) && up[k / 2..] == Up(h, b);
      TreeOfUp(h, a);
      SmallUp(h, b);
      NodeInputsUp(h, a);
      NodeInputsUp(h, b);
    }
  }

  lemma NodeInputsUp(h: Hash, level: seq<Digest>)
    requires level != []
    ensures NodeInputs(h, level) == PairInputs(level) + NodeInputs(h, Up(h, level))
  {
    if |level| == 1 {
      assert Up(h, level) == level;
    }
  }

  lemma SmallUp(h: Hash, level: seq<Digest>)
    requires level != []
    ensures TreeHash(h, Up(h, level)) == TreeHash(h, level)
  {
    if |level| >= 2 {
      TreeOfUp(h, level);
    }
  }

  lemma NodeInputsOfPair(h: Hash, level: seq<Digest>)
    requires |level| == 2
    ensures NodeInputs(h, level) == NodeInputs(h, level[..1]) + NodeInputs(h, level[1..])
              + {NodeInput(TreeHash(h, level[..1]), TreeHash(h, level[1..]))}
  {
    assert level[2..] == [];
    assert |Up(h, level)| == 1;
    assert PairInputs(level) == {NodeInput(level[0], level[1])};
  }

  /** Unwinding an accepted path from the root: it ends at the leaf whose string
      the verifier hashed, or a node on the way has two preimages. */
  lemma {:induction false} PathEndsAtLeaf(h: Hash, sectors: seq<Bytes>, level: seq<Digest>, from: nat,
                                          index: nat, data: Bytes, path: seq<Step>)
    requires level != [] && from + |level| <= |sectors| <= TWO_64 && index < TWO_64
    requires level == Leaves(h, sectors)[from..from + |level|]
    requires Climb(h, LeafHash(h, index, data), path) == TreeHash(h, level)
    ensures (index < |sectors| && data == sectors[index])
         || Collision(h, LeafInputs(sectors) + NodeInputs(h, level), CheckInputs(h, index, data, path))
    decreases |path|, |level|
  {
    hide Climb, NodeInputs, TreeHash, LeafInput, NodeInput, Split, PathInputs;
    var xs, ys := LeafInputs(sectors) + NodeInputs(h, level), CheckInputs(h, index, data, path);
    var y := LastInput(h, index, data, path);
    LastInputHashes(h, index, data, path);
    if |level| == 1 {
      var x := LeafInput(from, sectors[from]);
      OneLeaf(h, level);
      assert x in LeafInputs(sectors);
      if x == y {
        LeafNotNode(h, from, sectors[from], index, data, path);
      } else {
        assert x in xs && y in ys && h(x) == h(y);
      }
    } else {
      var k := Split(|level|);
      var l, r := TreeHash(h, level[..k]), TreeHash(h, level[k..]);
      var x := NodeInput(l, r);
      SplitTree(h, level);
      NodeInputsSplit(h, level);
      assert x in xs;
      if x != y {
        assert y in ys && h(x) == h(y);
      } else {
        NodeNotLeaf(l, r, h, index, data, path);
        var n := |path| - 1;
        var left := path[n].direction == 0;
        var part := if left then level[..k] else level[k..];
        PathEndsAtLeaf(h, sectors, part, if left then from else from + k, index, data, path[..n]);
        CheckInputsGrow(h, index, data, path);
        if Collision(h, LeafInputs(sectors) + NodeInputs(h, part), CheckInputs(h, index, data, path[..n])) {
          CollisionMonotone(h, LeafInputs(sectors) + NodeInputs(h, part), xs, CheckInputs(h, index, data, path[..n]), ys);
        }
      }
    }
  }

  /** The last string the verifier hashes. */
  function LastInput(h: Hash, index: nat, data: Bytes, path: seq<Step>): Bytes {
    if path == [] then LeafInput(index, data)
    else StepInput(Climb(h, LeafHash(h, index, data), path[..|path| - 1]), path[|path| - 1])
  }

  lemma LastInputHashes(h: Hash, index: nat, data: Bytes, path: seq<Step>)
    ensures h(LastInput(h, index, data, path)) == Climb(h, LeafHash(h, index, data), path)
    ensures LastInput(h, index, data, path) in CheckInputs(h, index, data, path)
  {
  }

  lemma OneLeaf(h: Hash, level: seq<Digest>)
    requires |level| == 1
    ensures TreeHash(h, level) == level[0]
  {
  }

  /** A leaf string is only ever hashed first, for its own index and data. */
  lemma LeafNotNode(h: Hash, i: nat, sector: Bytes, index: nat, data: Bytes, path: seq<Step>)
    requires i < TWO_64 && index < TWO_64
    requires LeafInput(i, sector) == LastInput(h, index, data, path)
    ensures i == index && sector == data
  {
    assert LeafInput(i, sector)[0] == 0;
    LaterInputs(h, index, data, path);
    if path == [] {
      LeafInputInjective(i, sector, index, data);
    }
  }

  lemma LaterInputs(h: Hash, index: nat, data: Bytes, path: seq<Step>)
    ensures LastInput(h, index, data, path) != []
    ensures LastInput(h, index, data, path)[0] == if path == [] then 0 else 1
  {
    hide Climb, LeafHash;
  }

  /** A node string is only hashed in a later step, and fixes its operands. */
  lemma NodeNotLeaf(l: Digest, r: Digest, h: Hash, index: nat, data: Bytes, path: seq<Step>)
    requires NodeInput(l, r) == LastInput(h, index, data, path)
    ensures path != []
    ensures Climb(h, LeafHash(h, index, data), path[..|path| - 1])
         == if path[|path| - 1].direction == 0 then l else r
  {
    hide Climb;
    assert NodeInput(l, r)[0] == 1 && LeafInput(index, data)[0] == 0;
    var d := Climb(h, LeafHash(h, index, data), path[..|path| - 1]);
    var s := path[|path| - 1];
    if s.direction == 0 {
      NodeInputInjective(l, r, d, s.sibling);
    } else {
      NodeInputInjective(l, r, s.sibling, d);
    }
  }

  lemma CheckInputsGrow(h: Hash, index: nat, data: Bytes, path: seq<Step>)
    requires path != []
    ensures CheckInputs(h, index, data, path[..|path| - 1]) <= CheckInputs(h, index, data, path)
  {
  }

  lemma CollisionMonotone(h: Hash, xs: set<Bytes>, xs': set<Bytes>, ys: set<Bytes>, ys': set<Bytes>)
    requires xs <= xs' && ys <= ys' && Collision(h, xs, ys)
    ensures Collision(h, xs', ys')
  {
    var x, y :| x in xs && y in ys && x != y && h(x) == h(y);
    assert x in xs' && y in ys';
  }

  /** Soundness: a path accepted against the root of the sectors, whatever its
      length, directions and sibling lengths, shows the sector of that index,
      or two different strings that were hashed have the same digest. */
  lemma AcceptedMeansSector(h: Hash, sectors: seq<Bytes>, index: nat, data: Bytes, path: seq<Step>)
    requires 1 <= |sectors| <= TWO_64 && index < TWO_64
    requires Accepts(h, index, data, path, TreeHash(h, Leaves(h, sectors)))
    ensures (index < |sectors| && data == sectors[index])
         || Collision(h, TreeInputs(h, sectors), CheckInputs(h, index, data, path))
  {
    hide *;
    var level := Leaves(h, sectors);
    assert level[0..0 + |level|] == level;
    AcceptsIs(h, index, data, path, TreeHash(h, level));
    PathEndsAtLeaf(h, sectors, level, 0, index, data, path);
    TreeInputsIs(h, sectors);
  }

  lemma AcceptsIs(h: Hash, index: nat, data: Bytes, path: seq<Step>, root: Digest)
    ensures Accepts(h, index, data, path, root) == (Climb(h, LeafHash(h, index, data), path) == root)
  {
  }

  lemma TreeInputsIs(h: Hash, sectors: seq<Bytes>)
    ensures TreeInputs(h, sectors) == LeafInputs(sectors) + NodeInputs(h, Leaves(h, sectors))
  {
  }

  // ----- the root binds the whole volume -----

  lemma {:induction false} PathInputsAppend(h: Hash, d: Digest, p: seq<Step>, q: seq<Step>)
    ensures PathInputs(h, d, p + q) == PathInputs(h, d, p) + PathInputs(h, Climb(h, d, p), q)
    decreases |q|
  {
    hide Climb, StepInput;
    if q == [] {
      assert p + q == p;
    } else {
      PathInputsAppend(h, d, p, q[..|q| - 1]);
      ClimbAppend(h, d, p, q[..|q| - 1]);
      assert (p + q)[..|p + q| - 1] == p + q[..|q| - 1];
    }
  }

  lemma {:induction false} PairIsInput(level: seq<Digest>, k: nat)
    requires 2 * k + 1 < |level|
    ensures NodeInput(level[2 * k], level[2 * k + 1]) in PairInputs(level)
    decreases |level|
  {
    hide NodeInput;
    if k > 0 {
      PairIsInput(level[2..], k - 1);
    }
  }

  lemma OneInput(h: Hash, d: Digest, s: Step)
    ensures PathInputs(h, d, [s]) == {StepInput(d, s)}
  {
    hide StepInput;
    assert [s][..0] == [];
    ClimbNone(h, d);
    NoPathInputs(h, d);
  }

  lemma SiblingInputs(h: Hash, level: seq<Digest>, idx: nat)
    requires idx < |level|
    ensures PathInputs(h, level[idx], Sibling(level, idx)) <= PairInputs(level)
  {
    hide PathInputs, NodeInput, PairInputs;
    if idx % 2 == 1 {
      OneInput(h, level[idx], Step(1, level[idx - 1]));
      assert 2 * (idx / 2) + 1 == idx;
      PairIsInput(level, idx / 2);
    } else if idx + 1 < |level| {
      OneInput(h, level[idx], Step(0, level[idx + 1]));
      assert 2 * (idx / 2) == idx;
      PairIsInput(level, idx / 2);
    } else {
      NoPathInputs(h, level[idx]);
    }
  }

  /** The strings checked along an honest path are strings of the tree. */
  lemma {:induction false} HonestPathInputs(h: Hash, level: seq<Digest>, idx: nat)
    requires idx < |level|
    ensures PathInputs(h, level[idx], PathOf(h, level, idx)) <= NodeInputs(h, level)
    decreases |level|
  {
    hide Climb, PathInputs, PairInputs, Up, Sibling;
    if |level| == 1 {
      NoPathInputs(h, level[idx]);
    } else {
      UpLength(h, level);
      SiblingReachesUp(h, level, idx);
      SiblingInputs(h, level, idx);
      PathInputsAppend(h, level[idx], Sibling(level, idx), PathOf(h, Up(h, level), idx / 2));
      HonestPathInputs(h, Up(h, level), idx / 2);
    }
  }

  lemma NoPathInputs(h: Hash, d: Digest)
    ensures PathInputs(h, d, []) == {}
  {
  }

  /** A sector of one volume is the sector of any other volume with that root,
      or computing the two roots hashed a colliding pair. */
  lemma SameRootSameSector(h: Hash, s: seq<Bytes>, t: seq<Bytes>, index: nat)
    requires 1 <= |s| <= TWO_64 && 1 <= |t| <= TWO_64 && index < |s|
    requires TreeHash(h, Leaves(h, s)) == TreeHash(h, Leaves(h, t))
    ensures (index < |t| && s[index] == t[index]) || Collision(h, TreeInputs(h, t), TreeInputs(h, s))
  {
    hide Accepts, TreeHash, PathOf, PathInputs, NodeInputs, LeafInput, Collision;
    var path := PathOf(h, Leaves(h, s), index);
    PathVerifies(h, s, index);
    AcceptedMeansSector(h, t, index, s[index], path);
    HonestPathInputs(h, Leaves(h, s), index);
    assert LeafInput(index, s[index]) in LeafInputs(s);
    if Collision(h, TreeInputs(h, t), CheckInputs(h, index, s[index], path)) {
      CollisionMonotone(h, TreeInputs(h, t), TreeInputs(h, t), CheckInputs(h, index, s[index], path), TreeInputs(h, s));
    }
  }

  /** Two volumes of any sizes with one root are equal, or computing their two
      roots hashed different strings with the same digest.  Promotion of lone
      nodes leaves no other ambiguity. */
  lemma RootBindsVolume(h: Hash, s: seq<Bytes>, t: seq<Bytes>)
    requires 1 <= |s| <= TWO_64 && 1 <= |t| <= TWO_64
    requires TreeHash(h, Leaves(h, s)) == TreeHash(h, Leaves(h, t))
    ensures s == t || Collision(h, TreeInputs(h, s), TreeInputs(h, t))
  {
    hide TreeHash, Leaves, TreeInputs, Collision;
    if !Collision(h, TreeInputs(h, s), TreeInputs(h, t)) {
      CollisionSymmetric(h, TreeInputs(h, s), TreeInputs(h, t));
      forall i | 0 <= i < |s| ensures i < |t| && s[i] == t[i] {
        SameRootSameSector(h, s, t, i);
      }
      SameRootSameSector(h, s, t, |s| - 1);
      SameRootSameSector(h, t, s, |t| - 1);
    }
  }

  lemma CollisionSymmetric(h: Hash, xs: set<Bytes>, ys: set<Bytes>)
    ensures Collision(h, xs, ys) <==> Collision(h, ys, xs)
  {
    if Collision(h, xs, ys) {
      var x, y :| x in xs && y in ys && x != y && h(x) == h(y);
      assert y in ys && x in xs && y != x && h(y) == h(x);
    }
    if Collision(h, ys, xs) {
      var x, y :| x in ys && y in xs && x != y && h(x) == h(y);
      assert y in xs && x in ys && y != x && h(y) == h(x);
    }
  }
}
