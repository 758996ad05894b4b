/** Anti-forensic splitting: material is spread over stripes so that every
    stripe is needed to merge it back.  The hash is arbitrary. */
module AfSplit {
  import opened Blocks
  import opened ModArith

  /** Byte j of a stirred string: any function that keeps lengths. */
  type Diffuser = (Bytes, nat) -> Byte

  function Stirred(d: Diffuser, x: Bytes): (out: Bytes)
    ensures |out| == |x|
  {
    seq(|x|, j requires 0 <= j < |x| => d(x, j))
  }

  // ----- diffusion -----

  /** The section index in four big-endian bytes. */
  function IndexBytes(i: nat): (t: Bytes)
    ensures |t| == 4
  {
    [Low(i / 0x100_0000), Low(i / 0x1_0000), Low(i / 0x100), Low(i)]
  }

  /** Section i of the string; the last one may be short. */
  function Section(src: Bytes, i: nat): (t: Bytes)
    requires 32 * i < |src|
    ensures 0 < |t| <= 32
  {
    src[32 * i..if 32 * i + 32 <= |src| then 32 * i + 32 else |src|]
  }

  function SectionDigest(h: Hash, src: Bytes, i: nat): Digest
    requires 32 * i < |src|
  {
    h(IndexBytes(i) + Section(src, i))
  }

  /** Every section is replaced by as many bytes of its digest. */
  function Diffuse(h: Hash, src: Bytes): (out: Bytes)
    ensures |out| == |src|
  {
    seq(|src|, j requires 0 <= j < |src| => SectionDigest(h, src, j / 32)[j % 32])
  }

  function Luks(h: Hash): Diffuser {
    (x: Bytes, j: nat) => if j < |x| then Diffuse(h, x)[j] else 0
  }

  lemma LuksStirs(h: Hash, x: Bytes)
    ensures Stirred(Luks(h), x) == Diffuse(h, x)
  {
    hide Diffuse;
  }

  /** af_diffuse. */
  method DiffuseBytes(h: Hash, src: Bytes) returns (out: Bytes)
    requires |src| <= 32 * 0x1_0000_0000
    ensures out == Diffuse(h, src)
  {
    hide IndexBytes;
    var full, rem := |src| / 32, |src| % 32;
    out := [];
    for i := 0 to full + if rem != 0 then 1 else 0
      invariant |out| == if i <= full then 32 * i else |src|
      invariant forall j :: 0 <= j < |out| ==> out[j] == Diffuse(h, src)[j]
    {
      var take := if i < full then 32 else rem;
      var digest := h(IndexBytes(i) + src[i * 32..i * 32 + take]);
      assert src[i * 32..i * 32 + take] == Section(src, i);
      out := out + digest[..take];
    }
  }

  /** Different strings with the same diffusion hold different sections whose
      digests agree on the bytes that are used. */
  lemma DiffusionCollision(h: Hash, x: Bytes, y: Bytes) returns (i: nat)
    requires |x| == |y| && x != y && Diffuse(h, x) == Diffuse(h, y)
    ensures 32 * i < |x| && Section(x, i) != Section(y, i)
    ensures var k := |Section(x, i)|; SectionDigest(h, x, i)[..k] == SectionDigest(h, y, i)[..k]
  {
    hide IndexBytes, SectionDigest;
    var j :| 0 <= j < |x| && x[j] != y[j];
    i := j / 32;
    assert Section(x, i)[j % 32] == x[j] && Section(y, i)[j % 32] == y[j];
    var k := |Section(x, i)|;
    forall m | 0 <= m < k ensures SectionDigest(h, x, i)[m] == SectionDigest(h, y, i)[m] {
      SectionByte(h, x, i, m);
      SectionByte(h, y, i, m);
    }
  }

  lemma SectionByte(h: Hash, x: Bytes, i: nat, m: nat)
    requires 32 * i < |x| && m < |Section(x, i)|
    ensures Diffuse(h, x)[32 * i + m] == SectionDigest(h, x, i)[m]
  {
    assert (32 * i + m) / 32 == i && (32 * i + m) % 32 == m;
  }

  // ----- splitting and merging -----

  /** The state after stirring the stripes in, one after another. */
  function Mixed(d: Diffuser, n: nat, stripes: seq<Bytes>): (buf: Bytes)
    requires forall i :: 0 <= i < |stripes| ==> |stripes[i]| == n
    ensures |buf| == n
  {
    if stripes == [] then Zeros(n)
    else
      var k := |stripes| - 1;
      Stirred(d, XorBytes(Mixed(d, n, stripes[..k]), stripes[k]))
  }

  function Join(stripes: seq<Bytes>): Bytes {
    if stripes == [] then [] else Join(stripes[..|stripes| - 1]) + stripes[|stripes| - 1]
  }

  /** The random stripes, and the one that closes the sum. */
  function Split(d: Diffuser, material: Bytes, fill: seq<Bytes>): (stripes: seq<Bytes>)
    requires forall i :: 0 <= i < |fill| ==> |fill[i]| == |material|
    ensures |stripes| == |fill| + 1
    ensures forall i :: 0 <= i < |stripes| ==> |stripes[i]| == |material|
  {
    fill + [XorBytes(material, Mixed(d, |material|, fill))]
  }

  lemma StripeFits(n: nat, s: nat, i: nat)
    requires i < s
    ensures 0 <= i * n <= (i + 1) * n <= s * n && (i + 1) * n - i * n == n
  {
    Distribute(i, 1, n);
    Distribute(s, i + 1, n);
    NonNegative(i, n);
    NonNegative(s - (i + 1), n);
  }

  /** Stripe i of a blob. */
  function Stripe(blob: Bytes, n: nat, s: nat, i: nat): (t: Bytes)
    requires |blob| == s * n && i < s
    ensures |t| == n
  {
    StripeFits(n, s, i);
    blob[i * n..(i + 1) * n]
  }

  function Stripes(blob: Bytes, n: nat, s: nat, k: nat): (stripes: seq<Bytes>)
    requires |blob| == s * n && k <= s
    ensures |stripes| == k
    ensures forall i :: 0 <= i < k ==> |stripes[i]| == n && stripes[i] == Stripe(blob, n, s, i)
  {
    seq(k, i requires 0 <= i < k => Stripe(blob, n, s, i))
  }

  function Merge(d: Diffuser, blob: Bytes, n: nat, s: nat): (material: Bytes)
    requires 1 <= s && |blob| == s * n
    ensures |material| == n
  {
    XorBytes(Stripe(blob, n, s, s - 1), Mixed(d, n, Stripes(blob, n, s, s - 1)))
  }

  lemma {:induction false} JoinLength(stripes: seq<Bytes>, n: nat)
    requires forall i :: 0 <= i < |stripes| ==> |stripes[i]| == n
    ensures |Join(stripes)| == |stripes| * n
  {
    if stripes != [] {
      var k := |stripes| - 1;
      JoinLength(stripes[..k], n);
      assert |stripes| * n == k * n + n;
    }
  }

  /** Cutting a joined blob gives the stripes back. */
  lemma {:induction false} StripesOfJoin(stripes: seq<Bytes>, n: nat)
    requires forall i :: 0 <= i < |stripes| ==> |stripes[i]| == n
    ensures |Join(stripes)| == |stripes| * n
    ensures Stripes(Join(stripes), n, |stripes|, |stripes|) == stripes
    decreases |stripes|
  {
    JoinLength(stripes, n);
    var s := |stripes|;
    if s != 0 {
      var init := stripes[..s - 1];
      StripesOfJoin(init, n);
      forall i | 0 <= i < s ensures Stripe(Join(stripes), n, s, i) == stripes[i] {
        StripeFits(n, s, i);
        if i < s - 1 {
          StripeFits(n, s - 1, i);
          assert Stripe(Join(init), n, s - 1, i) == Stripes(Join(init), n, s - 1, s - 1)[i];
        }
      }
    }
  }

  /** A blob is the join of its stripes. */
  lemma {:induction false} JoinOfStripes(blob: Bytes, n: nat, s: nat, k: nat)
    requires |blob| == s * n && k <= s
    ensures k * n <= |blob| && Join(Stripes(blob, n, s, k)) == blob[..k * n]
  {
    if k == 0 {
    } else {
      StripeFits(n, s, k - 1);
      JoinOfStripes(blob, n, s, k - 1);
      assert Stripes(blob, n, s, k)[..k - 1] == Stripes(blob, n, s, k - 1);
    }
  }

  /** Merging undoes splitting: any diffusion, any material, any fill. */
  lemma MergeSplit(d: Diffuser, material: Bytes, fill: seq<Bytes>)
    requires forall i :: 0 <= i < |fill| ==> |fill[i]| == |material|
    ensures var s := |fill| + 1; var blob := Join(Split(d, material, fill));
            |blob| == s * |material| && Merge(d, blob, |material|, s) == material
  {
    var n, s := |material|, |fill| + 1;
    var stripes := Split(d, material, fill);
    var blob := Join(stripes);
    StripesOfJoin(stripes, n);
    var cut := Stripes(blob, n, s, s);
    assert Stripes(blob, n, s, s - 1) == cut[..s - 1] == fill;
    assert Stripe(blob, n, s, s - 1) == cut[s - 1];
    XorTwice(material, Mixed(d, n, fill));
  }

  /** Splitting what was merged, with the same random stripes, gives the blob. */
  lemma SplitMerge(d: Diffuser, blob: Bytes, n: nat, s: nat)
    requires 1 <= s && |blob| == s * n
    ensures Join(Split(d, Merge(d, blob, n, s), Stripes(blob, n, s, s - 1))) == blob
  {
    var fill := Stripes(blob, n, s, s - 1);
    XorTwice(Stripe(blob, n, s, s - 1), Mixed(d, n, fill));
    assert Split(d, Merge(d, blob, n, s), fill) == Stripes(blob, n, s, s);
    JoinOfStripes(blob, n, s, s);
  }

  /** Two different strings of one length that are stirred to the same one. */
  ghost predicate Collides(d: Diffuser, x: Bytes, y: Bytes) {
    |x| == |y| && x != y && Stirred(d, x) == Stirred(d, y)
  }

  /** Different stripes with the same state afterwards, differing in one place,
      collide in some round r from there on: x and y are what it stirs. */
  lemma {:induction false} MixedCollision(d: Diffuser, n: nat, a: seq<Bytes>, b: seq<Bytes>, i: nat)
      returns (r: nat, x: Bytes, y: Bytes)
    requires |a| == |b| && i < |a| && a[i] != b[i]
    requires forall k :: 0 <= k < |a| ==> |a[k]| == |b[k]| == n && (k != i ==> a[k] == b[k])
    requires Mixed(d, n, a) == Mixed(d, n, b)
    ensures i <= r < |a| && |x| == n && Collides(d, x, y)
    ensures x == XorBytes(Mixed(d, n, a[..r]), a[r]) && y == XorBytes(Mixed(d, n, b[..r]), b[r])
    decreases |a|
  {
    hide *;
    var k := |a| - 1;
    var p, q := Mixed(d, n, a[..k]), Mixed(d, n, b[..k]);
    MixedLast(d, n, a);
    MixedLast(d, n, b);
    r, x, y := k, XorBytes(p, a[k]), XorBytes(q, b[k]);
    if i == k {
      assert a[..k] == b[..k];
      XorCancels(a[k], b[k], p);
      CollisionIs(d, x, y);
    } else if x != y {
      CollisionIs(d, x, y);
    } else {
      XorCancels(p, q, a[k]);
      r, x, y := MixedCollision(d, n, a[..k], b[..k], i);
      assert a[..k][..r] == a[..r] && b[..k][..r] == b[..r];
    }
  }

  lemma CollisionIs(d: Diffuser, x: Bytes, y: Bytes)
    ensures Collides(d, x, y) <==> |x| == |y| && x != y && Stirred(d, x) == Stirred(d, y)
  {
  }

  lemma MixedLast(d: Diffuser, n: nat, a: seq<Bytes>)
    requires a != [] && forall k :: 0 <= k < |a| ==> |a[k]| == n
    ensures Mixed(d, n, a) == Stirred(d, XorBytes(Mixed(d, n, a[..|a| - 1]), a[|a| - 1]))
  {
  }

  /** Adding one string to both sides loses nothing. */
  lemma XorCancels(x: Bytes, y: Bytes, p: Bytes)
    requires |x| == |y| == |p|
    ensures XorBytes(x, p) == XorBytes(y, p) <==> x == y
    ensures XorBytes(p, x) == XorBytes(p, y) <==> x == y
  {
    XorTwice(x, p);
    XorTwice(y, p);
    XorCommutes(x, p);
    XorCommutes(y, p);
  }

  /** Damage to one stripe changes the merged material, unless in some later
      round r the two mergings stir different strings to the same one; in the
      last stripe it always does. */
  lemma DamagedStripe(d: Diffuser, blob: Bytes, damaged: Bytes, n: nat, s: nat, i: nat)
      returns (r: nat, x: Bytes, y: Bytes)
    requires i < s && |blob| == |damaged| == s * n
    requires Stripe(blob, n, s, i) != Stripe(damaged, n, s, i)
    requires forall k :: 0 <= k < s && k != i ==> Stripe(blob, n, s, k) == Stripe(damaged, n, s, k)
    ensures Merge(d, blob, n, s) != Merge(d, damaged, n, s)
         || (&& i <= r < s - 1 && Collides(d, x, y)
             && x == XorBytes(Mixed(d, n, Stripes(blob, n, s, r)), Stripe(blob, n, s, r))
             && y == XorBytes(Mixed(d, n, Stripes(damaged, n, s, r)), Stripe(damaged, n, s, r)))
  {
    r, x, y := 0, [], [];
    var a, b := Stripes(blob, n, s, s - 1), Stripes(damaged, n, s, s - 1);
    var last, other := Stripe(blob, n, s, s - 1), Stripe(damaged, n, s, s - 1);
    var p, q := Mixed(d, n, a), Mixed(d, n, b);
    XorCancels(last, other, p);
    XorCancels(p, q, last);
    if i == s - 1 {
      assert a == b;
    } else if p == q {
      r, x, y := MixedCollision(d, n, a, b, i);
      assert a[..r] == Stripes(blob, n, s, r) && b[..r] == Stripes(damaged, n, s, r);
    }
  }

  // ----- the generator and the loops of the reference -----

  const WORD: int := 0x1_0000_0000

  function Step(state: nat): nat {
    (state * 1664525 + 1013904223) % WORD
  }

  function Skip(state: nat, n: nat): nat {
    if n == 0 then state else Step(Skip(state, n - 1))
  }

  /** The next n bytes of the generator. */
  function Draw(state: nat, n: nat): (out: Bytes)
    ensures |out| == n
  {
    if n == 0 then [] else Draw(state, n - 1) + [Low(Skip(state, n) / 0x100_0000)]
  }

  function SkipFill(state: nat, n: nat, k: nat): nat {
    if k == 0 then state else Skip(SkipFill(state, n, k - 1), n)
  }

  /** The next k stripes of n bytes. */
  function Fill(state: nat, n: nat, k: nat): (stripes: seq<Bytes>)
    ensures |stripes| == k
    ensures forall i :: 0 <= i < k ==> |stripes[i]| == n
  {
    if k == 0 then [] else Fill(state, n, k - 1) + [Draw(SkipFill(state, n, k - 1), n)]
  }

  class Lcg {
    var s: nat

    constructor (seed: int)
      ensures s == seed % WORD
    {
      s := seed % WORD;
    }

    method Rand(n: nat) returns (out: Bytes)
      modifies this
      ensures out == Draw(old(s), n) && s == Skip(old(s), n)
    {
      out := [];
      for i := 0 to n
        invariant out == Draw(old(s), i) && s == Skip(old(s), i)
      {
        s := (s * 1664525 + 1013904223) % WORD;
        out := out + [Low(s / 0x100_0000)];
      }
    }
  }

  /** af_split: the random stripes are drawn in order. */
  method SplitBlob(h: Hash, material: Bytes, s: nat, rng: Lcg) returns (blob: Bytes)
    requires |material| <= 32 * WORD
    modifies rng
    ensures var k := if s == 0 then 0 else s - 1;
            && blob == Join(Split(Luks(h), material, Fill(old(rng.s), |material|, k)))
            && rng.s == SkipFill(old(rng.s), |material|, k)
  {
    hide Diffuse, Draw, Luks, Stirred;
    var n := |material|;
    var count := if s == 0 then 0 else s - 1;
    var stripes, buf := [], Zeros(n);
    for i := 0 to count
      invariant rng.s == SkipFill(old(rng.s), n, i)
      invariant stripes == Fill(old(rng.s), n, i)
      invariant buf == Mixed(Luks(h), n, stripes)
    {
      var st := rng.Rand(n);
      ghost var before := stripes;
      stripes := stripes + [st];
      assert stripes[..i] == before;
      LuksStirs(h, XorBytes(buf, st));
      buf := DiffuseBytes(h, XorBytes(buf, st));
    }
    stripes := stripes + [XorBytes(material, buf)];
    blob := Joined(stripes);
  }

  method Joined(stripes: seq<Bytes>) returns (blob: Bytes)
    ensures blob == Join(stripes)
  {
    blob := [];
    for i := 0 to |stripes|
      invariant blob == Join(stripes[..i])
    {
      assert stripes[..i + 1][..i] == stripes[..i];
      blob := blob + stripes[i];
    }
    assert stripes[..|stripes|] == stripes;
  }

  /** Adding as far as the shorter string goes. */
  function XorShort(s: Bytes, t: Bytes): (u: Bytes)
    ensures |u| == Min(|s|, |t|)
  {
    var k := Min(|s|, |t|);
    XorBytes(s[..k], t[..k])
  }

  /** The i-th slice of n bytes, however long the blob is. */
  function Cut(blob: Bytes, n: nat, i: nat): (t: Bytes)
    ensures |t| <= n
  {
    StripeFits(n, i + 1, i);
    Slice(blob, i * n, (i + 1) * n)
  }

  /** The state after the first k slices. */
  function MixedCuts(d: Diffuser, blob: Bytes, n: nat, k: nat): (buf: Bytes)
    ensures |buf| <= n
  {
    if k == 0 then Zeros(n) else Stirred(d, XorShort(MixedCuts(d, blob, n, k - 1), Cut(blob, n, k - 1)))
  }

  /** af_merge of any blob; with no stripe at all the last slice is empty. */
  function MergedCuts(d: Diffuser, blob: Bytes, n: nat, s: nat): Bytes {
    if s == 0 then [] else XorShort(Cut(blob, n, s - 1), MixedCuts(d, blob, n, s - 1))
  }

  lemma {:induction false} MixedCutsWhole(d: Diffuser, blob: Bytes, n: nat, s: nat, k: nat)
    requires |blob| == s * n && k <= s
    ensures MixedCuts(d, blob, n, k) == Mixed(d, n, Stripes(blob, n, s, k))
    decreases k
  {
    hide Stirred, Stripe, Cut, Mixed, XorBytes;
    if k == 0 {
      MixedNone(d, n);
    } else {
      MixedCutsWhole(d, blob, n, s, k - 1);
      assert Stripes(blob, n, s, k)[..k - 1] == Stripes(blob, n, s, k - 1);
      MixedLast(d, n, Stripes(blob, n, s, k));
      CutIsStripe(blob, n, s, k - 1);
      XorShortWhole(MixedCuts(d, blob, n, k - 1), Stripe(blob, n, s, k - 1));
    }
  }

  lemma MixedNone(d: Diffuser, n: nat)
    ensures Mixed(d, n, []) == Zeros(n)
  {
  }

  lemma XorShortWhole(s: Bytes, t: Bytes)
    requires |s| == |t|
    ensures XorShort(s, t) == XorBytes(s, t)
  {
    hide XorBytes;
    assert s[..|s|] == s && t[..|t|] == t;
  }

  lemma CutIsStripe(blob: Bytes, n: nat, s: nat, i: nat)
    requires |blob| == s * n && i < s
    ensures Cut(blob, n, i) == Stripe(blob, n, s, i)
  {
    hide Slice;
    StripeFits(n, s, i);
  }

  /** On whole stripes it is the merge. */
  lemma MergedWhole(d: Diffuser, blob: Bytes, n: nat, s: nat)
    requires 1 <= s && |blob| == s * n
    ensures MergedCuts(d, blob, n, s) == Merge(d, blob, n, s)
  {
    hide Stirred, Stripe, Cut, Mixed, MixedCuts, XorBytes;
    MixedCutsWhole(d, blob, n, s, s - 1);
    CutIsStripe(blob, n, s, s - 1);
    XorShortWhole(Stripe(blob, n, s, s - 1), MixedCuts(d, blob, n, s - 1));
  }

  /** af_merge, for every blob and stripe count. */
  method MergeBlob(h: Hash, blob: Bytes, n: nat, s: nat) returns (material: Bytes)
    requires n <= 32 * WORD
    ensures material == MergedCuts(Luks(h), blob, n, s)
    ensures 1 <= s && |blob| == s * n ==> material == Merge(Luks(h), blob, n, s)
  {
    hide Diffuse, Luks, Stirred, Cut, XorShort;
    if 1 <= s && |blob| == s * n {
      MergedWhole(Luks(h), blob, n, s);
    }
    if s == 0 {
      return [];
    }
    var buf := Zeros(n);
    for i := 0 to s - 1
      invariant buf == MixedCuts(Luks(h), blob, n, i)
    {
      var x := XorShort(buf, Cut(blob, n, i));
      LuksStirs(h, x);
      buf := DiffuseBytes(h, x);
    }
    material := XorShort(Cut(blob, n, s - 1), buf);
  }
}
