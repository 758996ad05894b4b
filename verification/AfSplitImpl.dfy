/** Anti-forensic splitting over arrays: the stripes are rows of one buffer, and
    only whole sections of a row are stirred. */
module AfSplitImpl {
  import opened Blocks
  import opened AfSplit

  /** The width of a row. */
  const N: nat := 128

  function Whole(n: nat): (w: nat)
    ensures w <= n
  {
    32 * (n / 32)
  }

  /** Stirring the whole sections and clearing the rest. */
  function WholeSections(h: Hash): Diffuser {
    (x: Bytes, j: nat) => if j < Whole(|x|) then Diffuse(h, x)[j] else 0
  }

  lemma WholeSectionsStir(h: Hash, x: Bytes)
    ensures var out := Stirred(WholeSections(h), x);
            out[..Whole(|x|)] == Diffuse(h, x)[..Whole(|x|)] && out[Whole(|x|)..] == Zeros(|x| - Whole(|x|))
  {
    hide Diffuse, Whole;
  }

  lemma SectionsAgree(h: Hash, x: Bytes)
    requires |x| % 32 == 0
    ensures Stirred(WholeSections(h), x) == Stirred(Luks(h), x)
  {
    hide Diffuse;
    assert Whole(|x|) == |x|;
  }

  /** The closing stripe against the state of the others. */
  function Closed(d: Diffuser, n: nat, rows: seq<Bytes>): (material: Bytes)
    requires rows != [] && forall i :: 0 <= i < |rows| ==> |rows[i]| == n
    ensures |material| == n
  {
    XorBytes(rows[|rows| - 1], Mixed(d, n, rows[..|rows| - 1]))
  }

  function Row(a: seq<Byte>, n: nat, i: nat): (row: Bytes)
    requires n <= N && i * N + N <= |a|
    ensures |row| == n
  {
    a[i * N..i * N + n]
  }

  function Rows(a: seq<Byte>, n: nat, k: nat): (rows: seq<Bytes>)
    requires n <= N && k * N <= |a|
    ensures |rows| == k && forall i :: 0 <= i < k ==> |rows[i]| == n && rows[i] == Row(a, n, i)
  {
    seq(k, i requires 0 <= i < k => Row(a, n, i))
  }

  /** Index j lies in none of the first k rows. */
  predicate Outside(j: nat, n: nat, k: nat) {
    k * N <= j || n <= j % N
  }

  /** What is outside k + 1 rows is outside k rows and not in the last one. */
  lemma OutsideRow(j: nat, n: nat, k: nat)
    requires n <= N && Outside(j, n, k + 1)
    ensures Outside(j, n, k) && !(k * N <= j < k * N + n)
  {
  }

  // ----- the functions over arrays -----

  /** xorb at offsets; the destination is another array. */
  method XorInto(a: array<Byte>, ao: nat, b: array<Byte>, bo: nat, out: array<Byte>, oo: nat, n: nat)
    requires out != a && out != b
    requires ao + n <= a.Length && bo + n <= b.Length && oo + n <= out.Length
    modifies out
    ensures out[oo..oo + n] == XorBytes(a[ao..ao + n], b[bo..bo + n])
    ensures forall j :: 0 <= j < out.Length && !(oo <= j < oo + n) ==> out[j] == old(out[j])
  {
    hide XorByte;
    for i := 0 to n
      invariant forall j :: oo <= j < oo + i ==> out[j] == XorByte(a[ao + j - oo], b[bo + j - oo])
      invariant forall j :: 0 <= j < out.Length && !(oo <= j < oo + i) ==> out[j] == old(out[j])
    {
      out[oo + i] := XorByte(a[ao + i], b[bo + i]);
    }
    ghost var u, v := out[oo..oo + n], XorBytes(a[ao..ao + n], b[bo..bo + n]);
    forall k | 0 <= k < n ensures u[k] == v[k] {
      assert out[oo + k] == XorByte(a[ao + k], b[bo + k]);
    }
  }

  /** The digest of section i, written where the section stands. */
  method WriteDigest(digest: Digest, dst: array<Byte>, at: nat)
    requires at + 32 <= dst.Length
    modifies dst
    ensures dst[at..at + 32] == digest
    ensures dst[..at] == old(dst[..at]) && dst[at + 32..] == old(dst[at + 32..])
  {
    for j := 0 to 32
      invariant dst[at..at + j] == digest[..j]
      invariant dst[..at] == old(dst[..at]) && dst[at + 32..] == old(dst[at + 32..])
    {
      dst[at + j] := digest[j];
    }
  }

  lemma WholeSection(h: Hash, x: Bytes, i: nat)
    requires 32 * i + 32 <= |x|
    ensures Section(x, i) == x[32 * i..32 * i + 32]
    ensures Diffuse(h, x)[32 * i..32 * i + 32] == SectionDigest(h, x, i)
  {
    hide SectionDigest;
    forall m | 0 <= m < 32 ensures Diffuse(h, x)[32 * i + m] == SectionDigest(h, x, i)[m] {
      SectionByte(h, x, i, m);
    }
  }

  lemma TakeMore(s: Bytes, at: nat)
    requires at + 32 <= |s|
    ensures s[..at + 32] == s[..at] + s[at..at + 32]
  {
  }

  /** diffuse: what does not fill a section is not written. */
  method DiffuseInto(h: Hash, src: array<Byte>, dst: array<Byte>, n: nat)
    requires src != dst && n <= src.Length && n <= dst.Length
    modifies dst
    ensures dst[..Whole(n)] == Diffuse(h, src[..n])[..Whole(n)] && dst[Whole(n)..n] == old(dst[Whole(n)..n])
    ensures dst[n..] == old(dst[n..])
  {
    hide IndexBytes, Diffuse, Section;
    ghost var x := src[..n];
    ghost var was := dst[..];
    var at: nat := 0;
    for i := 0 to n / 32
      invariant at == 32 * i <= n
      invariant dst[..at] == Diffuse(h, x)[..at] && dst[at..] == was[at..]
    {
      WholeSection(h, x, i);
      assert src[at..at + 32] == x[at..at + 32] by {
        var u, v := src[at..at + 32], x[at..at + 32];
        forall k | 0 <= k < 32 ensures u[k] == v[k] {
          assert x[at + k] == src[at + k];
        }
      }
      ghost var rest := dst[at..];
      ghost var done := dst[..at];
      WriteDigest(h(IndexBytes(i) + src[at..at + 32]), dst, at);
      assert dst[..][..at] == done && dst[..][at..at + 32] == dst[at..at + 32];
      TakeMore(dst[..], at);
      TakeMore(Diffuse(h, x), at);
      assert dst[at + 32..] == rest[32..] == was[at + 32..];
      at := at + 32;
    }
    assert dst[at..n] == dst[at..][..n - at] == was[at..n];
    assert dst[n..] == dst[at..][n - at..] == was[n..];
  }

  /** One round of stirring: the buffer afterwards. */
  method StirInto(h: Hash, buf: array<Byte>, t: array<Byte>, stripes: array<Byte>, n: nat, i: nat)
    requires n <= N && buf.Length == t.Length == N && i * N + N <= stripes.Length
    requires buf != t && buf != stripes && t != stripes
    requires buf[Whole(n)..n] == Zeros(n - Whole(n))
    modifies buf, t
    ensures buf[..n] == Stirred(WholeSections(h), XorBytes(old(buf[..n]), Row(stripes[..], n, i)))
    ensures buf[Whole(n)..n] == Zeros(n - Whole(n))
  {
    hide XorBytes, Diffuse, Whole, WholeSections, Stirred;
    var w := Whole(n);
    ghost var x := XorBytes(buf[..n], Row(stripes[..], n, i));
    XorInto(buf, 0, stripes, i * N, t, 0, n);
    assert buf[0..n] == buf[..n] && t[0..n] == t[..n];
    assert stripes[i * N..i * N + n] == Row(stripes[..], n, i);
    DiffuseInto(h, t, buf, n);
    WholeSectionsStir(h, x);
    ghost var y := Stirred(WholeSections(h), x);
    assert buf[..n] == buf[..w] + buf[w..n] && y == y[..w] + y[w..];
  }

  /** rng_bytes into row i; the random bytes are given. */
  method FillRow(row: Bytes, stripes: array<Byte>, i: nat)
    requires |row| <= N && i * N + N <= stripes.Length
    modifies stripes
    ensures stripes[i * N..i * N + |row|] == row
    ensures forall j :: 0 <= j < stripes.Length && !(i * N <= j < i * N + |row|) ==> stripes[j] == old(stripes[j])
  {
    for k := 0 to |row|
      invariant stripes[i * N..i * N + k] == row[..k]
      invariant forall j :: 0 <= j < stripes.Length && !(i * N <= j < i * N + k) ==> stripes[j] == old(stripes[j])
    {
      stripes[i * N + k] := row[k];
    }
  }

  /** One round of splitting: a random row is written and stirred in. */
  method SplitRound(h: Hash, row: Bytes, buf: array<Byte>, t: array<Byte>, stripes: array<Byte>, n: nat, i: nat,
                    ghost rows: seq<Bytes>)
    requires |row| == n <= N && buf.Length == t.Length == N && i * N + N <= stripes.Length
    requires buf != t && buf != stripes && t != stripes
    requires Rows(stripes[..], n, i) == rows && buf[..n] == Mixed(WholeSections(h), n, rows)
    requires buf[Whole(n)..n] == Zeros(n - Whole(n))
    modifies buf, t, stripes
    ensures Rows(stripes[..], n, i + 1) == rows + [row] && buf[..n] == Mixed(WholeSections(h), n, rows + [row])
    ensures buf[Whole(n)..n] == Zeros(n - Whole(n))
    ensures forall j :: 0 <= j < stripes.Length && Outside(j, n, i + 1) ==>
              Outside(j, n, i) && stripes[j] == old(stripes[j])
  {
    hide XorBytes, Diffuse, WholeSections, Stirred, Outside, Rows, Row, Whole, Mixed;
    ghost var before := stripes[..];
    FillRow(row, stripes, i);
    RowWritten(before, stripes[..], n, i, rows, row);
    RowOfRows(stripes[..], n, i + 1, i);
    assert (rows + [row])[..i] == rows;
    MixedLast(WholeSections(h), n, rows + [row]);
    StirInto(h, buf, t, stripes, n, i);
  }

  /** af_split. */
  method SplitInto(h: Hash, key: array<Byte>, n: nat, s: nat, fill: seq<Bytes>, stripes: array<Byte>)
    requires 1 <= s && n <= N && n <= key.Length && s * N <= stripes.Length && key != stripes
    requires |fill| == s - 1 && forall i :: 0 <= i < |fill| ==> |fill[i]| == n
    modifies stripes
    ensures Rows(stripes[..], n, s) == Split(WholeSections(h), key[..n], fill)
    ensures forall j :: 0 <= j < stripes.Length && Outside(j, n, s) ==> stripes[j] == old(stripes[j])
  {
    hide XorBytes, WholeSections, Outside, Rows, Row, Whole, Mixed;
    var buf, t := new Byte[N](_ => 0), new Byte[N](_ => 0);
    MixedNone(WholeSections(h), n);
    assert buf[..n] == Zeros(n) && buf[Whole(n)..n] == Zeros(n - Whole(n));
    assert Rows(stripes[..], n, 0) == fill[..0];
    for i := 0 to s - 1
      invariant Rows(stripes[..], n, i) == fill[..i]
      invariant buf[..n] == Mixed(WholeSections(h), n, fill[..i])
      invariant buf[Whole(n)..n] == Zeros(n - Whole(n))
      invariant forall j :: 0 <= j < stripes.Length && Outside(j, n, i) ==> stripes[j] == old(stripes[j])
    {
      assert fill[..i] + [fill[i]] == fill[..i + 1];
      SplitRound(h, fill[i], buf, t, stripes, n, i, fill[..i]);
    }
    ghost var before := stripes[..];
    assert fill[..s - 1] == fill;
    XorInto(key, 0, buf, 0, stripes, (s - 1) * N, n);
    assert key[0..n] == key[..n] && buf[0..n] == buf[..n];
    RowWritten(before, stripes[..], n, s - 1, fill, XorBytes(key[..n], buf[..n]));
  }

  lemma RowOfRows(a: seq<Byte>, n: nat, k: nat, i: nat)
    requires n <= N && k * N <= |a| && i < k
    ensures Rows(a, n, k)[i] == Row(a, n, i)
  {
  }

  /** Writing one row adds it to the rows before it. */
  lemma RowWritten(before: seq<Byte>, after: seq<Byte>, n: nat, i: nat, rows: seq<Bytes>, row: Bytes)
    requires n <= N && |after| == |before| && i * N + N <= |after|
    requires Rows(before, n, i) == rows && |row| == n
    requires after[i * N..i * N + n] == row
    requires forall j :: 0 <= j < |after| && !(i * N <= j < i * N + n) ==> after[j] == before[j]
    ensures Rows(after, n, i + 1) == rows + [row]
    ensures forall j :: 0 <= j < |after| && Outside(j, n, i + 1) ==> Outside(j, n, i) && after[j] == before[j]
  {
    hide Outside;
    forall j | 0 <= j < |after| && Outside(j, n, i + 1) ensures Outside(j, n, i) && after[j] == before[j] {
      OutsideRow(j, n, i);
    }
    forall k | 0 <= k < i ensures Row(after, n, k) == rows[k] {
      assert rows[k] == Row(before, n, k);
    }
  }

  /** One round of merging: row i is stirred in. */
  method MergeRound(h: Hash, buf: array<Byte>, t: array<Byte>, stripes: array<Byte>, n: nat, i: nat)
    requires n <= N && buf.Length == t.Length == N && i * N + N <= stripes.Length
    requires buf != t && buf != stripes && t != stripes
    requires buf[..n] == Mixed(WholeSections(h), n, Rows(stripes[..], n, i))
    requires buf[Whole(n)..n] == Zeros(n - Whole(n))
    modifies buf, t
    ensures buf[..n] == Mixed(WholeSections(h), n, Rows(stripes[..], n, i + 1))
    ensures buf[Whole(n)..n] == Zeros(n - Whole(n))
  {
    hide XorBytes, WholeSections, Rows, Row, Whole, Mixed, Stirred;
    ghost var all := stripes[..];
    NextRow(all, n, i);
    MixedLast(WholeSections(h), n, Rows(all, n, i + 1));
    StirInto(h, buf, t, stripes, n, i);
    assert stripes[..] == all;
  }

  /** The last row against the buffer. */
  method CloseInto(buf: array<Byte>, stripes: array<Byte>, n: nat, i: nat, out: array<Byte>)
    requires n <= N && n <= buf.Length && n <= out.Length && i * N + N <= stripes.Length && out != stripes && out != buf
    modifies out
    ensures out[..n] == XorBytes(Row(stripes[..], n, i), buf[..n]) && out[n..] == old(out[n..])
  {
    hide XorBytes;
    XorInto(stripes, i * N, buf, 0, out, 0, n);
    assert out[0..n] == out[..n] && buf[0..n] == buf[..n];
    assert stripes[i * N..i * N + n] == Row(stripes[..], n, i);
  }

  /** af_merge. */
  method MergeInto(h: Hash, stripes: array<Byte>, n: nat, s: nat, out: array<Byte>)
    requires 1 <= s && n <= N && n <= out.Length && s * N <= stripes.Length && out != stripes
    modifies out
    ensures out[..n] == Closed(WholeSections(h), n, Rows(stripes[..], n, s))
    ensures out[n..] == old(out[n..])
  {
    hide XorBytes, WholeSections, Rows, Row, Whole, Mixed;
    var buf, t := new Byte[N](_ => 0), new Byte[N](_ => 0);
    MixedNone(WholeSections(h), n);
    assert buf[..n] == Zeros(n) && buf[Whole(n)..n] == Zeros(n - Whole(n));
    assert Rows(stripes[..], n, 0) == [];
    var i := 0;
    while i < s - 1
      invariant i <= s - 1
      invariant buf[..n] == Mixed(WholeSections(h), n, Rows(stripes[..], n, i))
      invariant buf[Whole(n)..n] == Zeros(n - Whole(n))
      modifies buf, t
    {
      MergeRound(h, buf, t, stripes, n, i);
      i := i + 1;
    }
    NextRow(stripes[..], n, s - 1);
    CloseInto(buf, stripes, n, s - 1, out);
  }

  lemma NextRow(a: seq<Byte>, n: nat, i: nat)
    requires n <= N && i * N + N <= |a|
    ensures Rows(a, n, i + 1)[..i] == Rows(a, n, i) && Rows(a, n, i + 1)[i] == Row(a, n, i)
  {
    hide Row;
  }

  // ----- what the array form shares with the reference -----

  /** Merging rows undoes splitting into them. */
  lemma ClosedSplit(d: Diffuser, material: Bytes, fill: seq<Bytes>)
    requires forall i :: 0 <= i < |fill| ==> |fill[i]| == |material|
    ensures Closed(d, |material|, Split(d, material, fill)) == material
  {
    var stripes := Split(d, material, fill);
    assert stripes[..|fill|] == fill;
    XorTwice(material, Mixed(d, |material|, fill));
  }

  /** Merging rows is merging the blob they join to. */
  lemma ClosedIsMerge(d: Diffuser, n: nat, rows: seq<Bytes>)
    requires rows != [] && forall i :: 0 <= i < |rows| ==> |rows[i]| == n
    ensures |Join(rows)| == |rows| * n && Closed(d, n, rows) == Merge(d, Join(rows), n, |rows|)
  {
    var s := |rows|;
    StripesOfJoin(rows, n);
    var cut := Stripes(Join(rows), n, s, s);
    assert Stripes(Join(rows), n, s, s - 1) == cut[..s - 1];
  }

  /** On lengths that fill their sections both forms stir alike ... */
  lemma {:induction false} MixedAgree(h: Hash, n: nat, stripes: seq<Bytes>)
    requires n % 32 == 0 && forall i :: 0 <= i < |stripes| ==> |stripes[i]| == n
    ensures Mixed(WholeSections(h), n, stripes) == Mixed(Luks(h), n, stripes)
    decreases |stripes|
  {
    hide Diffuse, Stirred, Luks, WholeSections, XorBytes;
    if stripes != [] {
      var k := |stripes| - 1;
      MixedAgree(h, n, stripes[..k]);
      SectionsAgree(h, XorBytes(Mixed(Luks(h), n, stripes[..k]), stripes[k]));
    }
  }

  /** ... and so split and merge alike. */
  lemma FormsAgree(h: Hash, material: Bytes, fill: seq<Bytes>, rows: seq<Bytes>)
    requires |material| % 32 == 0 && forall i :: 0 <= i < |fill| ==> |fill[i]| == |material|
    requires rows != [] && forall i :: 0 <= i < |rows| ==> |rows[i]| == |material|
    ensures Split(WholeSections(h), material, fill) == Split(Luks(h), material, fill)
    ensures |Join(rows)| == |rows| * |material|
    ensures Closed(WholeSections(h), |material|, rows) == Merge(Luks(h), Join(rows), |material|, |rows|)
  {
    hide Mixed, Merge, Join, Luks, WholeSections, XorBytes;
    MixedAgree(h, |material|, fill);
    MixedAgree(h, |material|, rows[..|rows| - 1]);
    ClosedIsMerge(Luks(h), |material|, rows);
  }

  /** Otherwise the array form leaves the end of the material as it is in the
      last stripe, whatever the hash and the random stripes are. */
  lemma TailUnstirred(h: Hash, material: Bytes, fill: seq<Bytes>)
    requires forall i :: 0 <= i < |fill| ==> |fill[i]| == |material|
    ensures var n := |material|; Split(WholeSections(h), material, fill)[|fill|][Whole(n)..] == material[Whole(n)..]
  {
    hide XorByte, Mixed, WholeSections, Whole;
    var n := |material|;
    var buf := Mixed(WholeSections(h), n, fill);
    MixedTail(h, n, fill);
    forall j | Whole(n) <= j < n ensures XorBytes(material, buf)[j] == material[j] {
      assert buf[j] == buf[Whole(n)..][j - Whole(n)] == 0;
      XorByteTwice(material[j], buf[j]);
    }
  }

  lemma MixedTail(h: Hash, n: nat, stripes: seq<Bytes>)
    requires forall i :: 0 <= i < |stripes| ==> |stripes[i]| == n
    ensures Mixed(WholeSections(h), n, stripes)[Whole(n)..] == Zeros(n - Whole(n))
  {
    hide WholeSections, XorBytes, Whole, Stirred;
    if stripes != [] {
      var k := |stripes| - 1;
      WholeSectionsStir(h, XorBytes(Mixed(WholeSections(h), n, stripes[..k]), stripes[k]));
    }
  }
}
