/** The bytes of keyslot records and of split blobs: every field at its offset,
    what each digest and tag covers, and the order in which bytes are drawn. */
module KeyslotFormat {
  import opened Blocks
  import opened AfSplit
  import opened Keyslot

  // ----- diffusion and stripes -----

  /** The section index stands big-endian in four bytes. */
  lemma IndexIsBigEndian(i: nat)
    requires i < 0x1_0000_0000
    ensures var t := IndexBytes(i);
      0x100_0000 * Value(t[0]) + 0x1_0000 * Value(t[1]) + 0x100 * Value(t[2]) + Value(t[3]) == i
  {
    hide Low, Value;
    ValueOfLow(i / 0x100_0000);
    ValueOfLow(i / 0x1_0000);
    ValueOfLow(i / 0x100);
    ValueOfLow(i);
    FourDigits(i);
  }

  lemma FourDigits(i: nat)
    requires i < 0x1_0000_0000
    ensures 0x100_0000 * (i / 0x100_0000 % 256) + 0x1_0000 * (i / 0x1_0000 % 256) + 0x100 * (i / 0x100 % 256) + i % 256 == i
  {
    var a, b, c := i / 0x100, i / 0x1_0000, i / 0x100_0000;
    assert i == 0x100 * a + i % 0x100;
    assert b == a / 0x100 && a == 0x100 * b + a % 0x100;
    assert c == b / 0x100 && b == 0x100 * c + b % 0x100;
    assert c % 0x100 == c;
  }

  /** Byte j of the diffusion is byte j % 32 of the digest of section j / 32
      behind its index. */
  lemma DiffusedByte(h: Hash, src: Bytes, j: nat, i: nat, end: nat)
    requires j < |src| && i == j / 32 && end == Min(32 * i + 32, |src|)
    ensures Diffuse(h, src)[j] == h(IndexBytes(i) + src[32 * i..end])[j % 32]
  {
    hide IndexBytes;
  }

  /** Splitting into one stripe leaves the material as it is. */
  lemma OneStripe(d: Diffuser, material: Bytes)
    ensures Join(Split(d, material, [])) == material
  {
    var n := |material|;
    XorZeros(material);
    assert Split(d, material, []) == [material];
    assert Join([material]) == Join([]) + material;
  }

  lemma XorZeros(s: Bytes)
    ensures XorBytes(s, Zeros(|s|)) == s && XorBytes(Zeros(|s|), s) == s
  {
    hide XorByte;
    forall j | 0 <= j < |s| ensures XorByte(s[j], 0) == s[j] && XorByte(0, s[j]) == s[j] {
      XorByteTwice(s[j], 0);
      XorByteTwice(0, s[j]);
    }
  }

  /** With two stripes the first is the random one, and the second is the
      material plus the diffusion of the first. */
  lemma TwoStripes(h: Hash, material: Bytes, fill: Bytes)
    requires |fill| == |material|
    ensures Join(Split(Luks(h), material, [fill])) == fill + XorBytes(material, Diffuse(h, fill))
  {
    hide Luks, Diffuse, XorBytes, Stirred;
    var n, d := |material|, Luks(h);
    MixedOne(d, n, fill);
    XorZeros(fill);
    LuksStirs(h, fill);
    JoinTwo(fill, XorBytes(material, Diffuse(h, fill)));
  }

  lemma MixedOne(d: Diffuser, n: nat, t: Bytes)
    requires |t| == n
    ensures Mixed(d, n, [t]) == Stirred(d, XorBytes(Zeros(n), t))
  {
    hide Mixed, Stirred, XorBytes;
    MixedLast(d, n, [t]);
    MixedNone(d, n);
    assert [t][..0] == [];
  }

  lemma JoinTwo(a: Bytes, b: Bytes)
    ensures Join([a, b]) == a + b
  {
    assert [a, b][..1] == [a] && [a][..0] == [];
    assert Join([a]) == Join([]) + a;
  }

  /** Every further random stripe is added to the state and stirred, and only
      then does the last stripe close the sum. */
  lemma NextStripe(d: Diffuser, n: nat, stripes: seq<Bytes>, t: Bytes)
    requires |t| == n && forall i :: 0 <= i < |stripes| ==> |stripes[i]| == n
    ensures Mixed(d, n, stripes + [t]) == Stirred(d, XorBytes(Mixed(d, n, stripes), t))
  {
    hide Mixed, Stirred, XorBytes;
    MixedLast(d, n, stripes + [t]);
    assert (stripes + [t])[..|stripes|] == stripes;
  }

  /** Stripe i of a blob stands at i times the length of the material. */
  lemma StripeAt(d: Diffuser, material: Bytes, fill: seq<Bytes>, i: nat)
    requires forall k :: 0 <= k < |fill| ==> |fill[k]| == |material|
    requires i <= |fill|
    ensures var blob := Join(Split(d, material, fill));
      0 <= i * |material| <= (i + 1) * |material| <= |blob|
      && blob[i * |material|..(i + 1) * |material|]
           == if i < |fill| then fill[i] else XorBytes(material, Mixed(d, |material|, fill))
  {
    hide Mixed, XorBytes;
    var n, s := |material|, |fill| + 1;
    var stripes := Split(d, material, fill);
    StripesOfJoin(stripes, n);
    StripeFits(n, s, i);
    assert Stripe(Join(stripes), n, s, i) == Stripes(Join(stripes), n, s, s)[i];
  }

  /** The split material is the flags byte and then the volume key. */
  lemma BlobLayout(h: Hash, content: Opened, fill: seq<Bytes>, i: nat)
    requires forall k :: 0 <= k < |fill| ==> |fill[k]| == 65
    requires i <= |fill|
    ensures |Blob(h, content, fill)| == 65 * (|fill| + 1)
    ensures Blob(h, content, fill)[65 * i..65 * i + 65]
         == if i < |fill| then fill[i] else XorBytes([content.flags] + content.vmk, Mixed(Luks(h), 65, fill))
  {
    hide Mixed, XorBytes, Split, Join, Luks;
    var material := [content.flags] + content.vmk;
    BlobLength(h, content, fill);
    StripeAt(Luks(h), material, fill, i);
  }

  // ----- the generator -----

  /** The high byte of a state. */
  function Top(state: nat): Byte {
    Low(state / 0x100_0000)
  }

  /** Byte t of what the generator gives from a state on. */
  function Drawn1(state: nat, t: nat): Byte {
    Top(Skip(state, t + 1))
  }

  /** It is the high byte of the state after t + 1 steps of
      s := 1664525 s + 1013904223 modulo 2^32. */
  lemma Generator(state: nat, t: nat)
    ensures Skip(state, 0) == state
    ensures Skip(state, t + 1) == (1664525 * Skip(state, t) + 1013904223) % 0x1_0000_0000
    ensures Value(Drawn1(state, t)) == Skip(state, t + 1) / 0x100_0000
  {
    hide Low, Value;
    ValueOfLow(Skip(state, t + 1) / 0x100_0000);
  }

  lemma {:induction false} DrawAt(state: nat, n: nat, i: nat)
    requires i < n
    ensures Draw(state, n)[i] == Drawn1(state, i)
    decreases n
  {
    hide Low, Skip;
    if i < n - 1 {
      DrawAt(state, n - 1, i);
    }
  }

  lemma {:induction false} SkipAdds(state: nat, a: nat, b: nat)
    ensures Skip(Skip(state, a), b) == Skip(state, a + b)
    decreases b
  {
    hide Step;
    if b != 0 {
      SkipAdds(state, a, b - 1);
      assert Skip(state, a + b) == Step(Skip(state, a + b - 1));
    }
  }

  lemma {:induction false} SkipFillAdds(state: nat, n: nat, k: nat)
    ensures SkipFill(state, n, k) == Skip(state, k * n)
    decreases k
  {
    hide Skip;
    if k == 0 {
      SkipNone(state);
    } else {
      SkipFillAdds(state, n, k - 1);
      SkipAdds(state, (k - 1) * n, n);
      assert (k - 1) * n + n == k * n;
    }
  }

  lemma SkipNone(state: nat)
    ensures Skip(state, 0) == state
  {
  }

  lemma {:induction false} FillAt(state: nat, n: nat, k: nat, i: nat)
    requires i < k
    ensures Fill(state, n, k)[i] == Draw(Skip(state, i * n), n)
    decreases k
  {
    hide Draw, Skip;
    if i < k - 1 {
      FillAt(state, n, k - 1, i);
    } else {
      SkipFillAdds(state, n, k - 1);
    }
  }

  /** A record draws its salt first, then its padding, then its stripes. */
  lemma DrawOrder(state: nat, s: nat, i: nat, k: nat)
    ensures i < 32 ==> DrawnFrom(state, s).salt[i] == Drawn1(state, i)
    ensures i < 1024 ==> DrawnFrom(state, s).pad[i] == Drawn1(state, 32 + i)
    ensures k + 1 < s && i < 65 ==> DrawnFrom(state, s).fill[k][i] == Drawn1(state, 1056 + 65 * k + i)
  {
    hide Draw, Skip, Fill, Drawn1;
    if i < 32 {
      DrawAt(state, 32, i);
    }
    if i < 1024 {
      DrawAt(Skip(state, 32), 1024, i);
      LaterDrawn(state, 32, i);
    }
    if k + 1 < s && i < 65 {
      SkipAdds(state, 32, 1024);
      FillAt(Skip(state, 1056), 65, s - 1, k);
      SkipAdds(state, 1056, k * 65);
      DrawAt(Skip(state, 1056 + k * 65), 65, i);
      LaterDrawn(state, 1056 + k * 65, i);
    }
  }

  lemma DrawnIs(state: nat, t: nat, n: nat)
    requires n == t + 1
    ensures Drawn1(state, t) == Top(Skip(state, n))
  {
    hide Top, Skip;
  }

  lemma LaterDrawn(state: nat, a: nat, t: nat)
    ensures Drawn1(Skip(state, a), t) == Drawn1(state, a + t)
  {
    hide *;
    SkipAdds(state, a, t + 1);
    DrawnIs(Skip(state, a), t, t + 1);
    DrawnIs(state, a + t, a + (t + 1));
  }

  // ----- records -----

  /** Byte j under the stream: block j / 64, its number in two 32-bit words. */
  lemma CryptedByte(p: Suite, key: Bytes, nonce: Bytes, data: Bytes, j: nat)
    requires j < |data|
    ensures Crypt(p, key, nonce, data)[j]
         == XorByte(data[j], p.block(key, nonce, j / 64 % 0x1_0000_0000, j / 0x40_0000_0000 % 0x1_0000_0000)[j % 64])
  {
    hide XorByte;
    assert j / 64 / 0x1_0000_0000 == j / 0x40_0000_0000;
  }

  /** The head of a labeled record, field by field. */
  lemma HeadBytes(s: nat, salt: Digest)
    requires 1 <= s < 0x1_0000
    ensures var t := LabeledHead(s, salt);
      && t[..4] == [0x56, 0x43, 0x4B, 0x53] && t[4] == (if s >= 2 then 2 else 1) && t[5] == 1
      && Value(t[6]) + 0x100 * Value(t[7]) == (if s >= 2 then s else 0)
      && t[8..14] == [0, 1, 0, 0, 65, 0] && t[14..46] == salt
  {
    hide LittleEndian;
    var stripes := if s >= 2 then s else 0;
    TwoLittle(stripes);
    CostAndLength();
    var t := LabeledHead(s, salt);
    assert t[8..14] == LittleEndian(256, 4) + LittleEndian(65, 2);
  }

  lemma TwoLittle(n: nat)
    requires n < 0x1_0000
    ensures LittleEndian(n, 2) == [Low(n), Low(n / 0x100)]
    ensures Value(Low(n)) + 0x100 * Value(Low(n / 0x100)) == n
  {
    hide Low, Value;
    ValueOfLow(n);
    ValueOfLow(n / 0x100);
    assert LittleEndian(n, 2) == [Low(n)] + LittleEndian(n / 0x100, 1);
    assert LittleEndian(n / 0x100, 1) == [Low(n / 0x100)] + LittleEndian(n / 0x1_0000, 0);
  }

  lemma CostAndLength()
    ensures LittleEndian(256, 4) == [0, 1, 0, 0] && LittleEndian(65, 2) == [65, 0]
  {
  }

  /** A labeled record that fits its slot: head, ciphertext, the tag of
      everything before it under the last 32 derived bytes, and the padding. */
  lemma LabeledBytes(p: Suite, pw: Bytes, s: nat, d: Drawn, blob: Bytes)
    requires |d.pad| == STRIDE && |blob| <= 946
    ensures var rec, n := LabeledRecord(p, pw, s, d.salt, d.pad, blob), 46 + |blob|;
      var dk := p.kdf(pw, d.salt);
      && |rec| == 1024 && rec[..46] == LabeledHead(s, d.salt)
      && rec[46..n] == Crypt(p, dk[..32], dk[32..40], blob)
      && rec[n..n + 32] == p.mac(dk[40..72], rec[..n])
      && rec[n + 32..] == d.pad[n + 32..]
  {
    hide LabeledHead, Crypt, Assign;
    var dk := p.kdf(pw, d.salt);
    var head := LabeledHead(s, d.salt);
    var ct := Crypt(p, dk[..32], dk[32..40], blob);
    var rec := LabeledRecord(p, pw, s, d.salt, d.pad, blob);
    SealedAt(d.pad, head, ct, p.mac(dk[40..], head + ct));
    assert dk[40..] == dk[40..72];
  }

  /** A bare record: salt, ciphertext, the tag of "VCKSbare" and all that, and
      the padding. */
  lemma BareBytes(p: Suite, pw: Bytes, d: Drawn, blob: Bytes)
    requires |d.pad| == STRIDE && |blob| <= 960
    ensures var rec, n := BareRecord(p, pw, d.salt, d.pad, blob), 32 + |blob|;
      var dk := p.kdf(pw, d.salt);
      && |rec| == 1024 && rec[..32] == d.salt
      && rec[32..n] == Crypt(p, dk[..32], dk[32..40], blob)
      && rec[n..n + 32] == p.mac(dk[40..72], [0x56, 0x43, 0x4B, 0x53, 0x62, 0x61, 0x72, 0x65] + rec[..n])
      && rec[n + 32..] == d.pad[n + 32..]
  {
    hide Crypt, Assign;
    var dk := p.kdf(pw, d.salt);
    var ct := Crypt(p, dk[..32], dk[32..40], blob);
    SealedAt(d.pad, d.salt, ct, p.mac(dk[40..], BareData(d.salt) + ct));
    assert dk[40..] == dk[40..72];
    var mark: Bytes := [0x56, 0x43, 0x4B, 0x53, 0x62, 0x61, 0x72, 0x65];
    assert BareData(d.salt) + ct == mark + (d.salt + ct);
  }

  /** Writing a head and then a ciphertext with its tag over the padding. */
  lemma SealedAt(pad: Bytes, head: Bytes, ct: Bytes, tag: Digest)
    requires |head| + |ct| + 32 <= |pad|
    ensures var rec, n := Assign(Assign(pad, 0, head), |head|, ct + tag), |head| + |ct|;
      && |rec| == |pad| && rec[..|head|] == head && rec[|head|..n] == ct && rec[..n] == head + ct
      && rec[n..n + 32] == tag && rec[n + 32..] == pad[n + 32..]
  {
    hide Min;
    var headed := Assign(pad, 0, head);
    var rec, n := Assign(headed, |head|, ct + tag), |head| + |ct|;
    assert headed == head + pad[|head|..];
    assert rec == head + (ct + tag) + pad[n + 32..];
  }

  /** The slot of a bare record: the low three bits of the first digest byte of
      "VCKSloc" and the passphrase. */
  lemma SlotOfPassphrase(p: Suite, pw: Bytes)
    ensures DeniableIndex(p, pw) == Value(p.hash([0x56, 0x43, 0x4B, 0x53, 0x6C, 0x6F, 0x63] + pw)[0]) % 8
  {
    hide Value;
    var t: Bytes := [0x56, 0x43, 0x4B, 0x53, 0x6C, 0x6F, 0x63];
    assert MAGIC + [0x6C, 0x6F, 0x63] == t;
  }
}
