/** Keyslot records: a volume key, split and encrypted under a passphrase, in a
    slot of an area.  Key derivation, tag, hash and stream block are arbitrary. */
module Keyslot {
  import opened Blocks
  import PowersOfTwo
  import opened AfSplit

  const STRIDE: nat := 1024
  const SLOTS: nat := 8
  const PLEN: nat := 65
  const LABEL: nat := 46
  const BARE: nat := 32

  type Vmk = v: Bytes | |v| == 64 witness seq(64, _ => 0)
  type Derived = k: Bytes | |k| == 72 witness seq(72, _ => 0)
  type Block64 = b: Bytes | |b| == 64 witness seq(64, _ => 0)

  /** Hash; passphrase and salt to keys; key and message to tag; key, nonce and
      the two counter words to a block of the stream. */
  datatype Suite = Suite(hash: Hash, kdf: (Bytes, Bytes) -> Derived, mac: (Bytes, Bytes) -> Digest,
                         block: (Bytes, Bytes, nat, nat) -> Block64)

  /** The answer of an opening; a tag that matches without any stripe behind it
      leads to an IndexError. */
  datatype Outcome = Found(content: Opened) | NotFound | IndexError

  /** The flags byte and the volume key. */
  datatype Opened = Opened(flags: Byte, vmk: Vmk)

  // ----- assigning to a slice -----

  /** Assigning to a slice of a byte array; beyond its end the array grows. */
  function Assign(s: Bytes, lo: nat, t: Bytes): (u: Bytes)
    requires lo <= |s|
    ensures |u| == if lo + |t| <= |s| then |s| else lo + |t|
    ensures u[..lo] == s[..lo] && u[lo..lo + |t|] == t
    ensures lo + |t| <= |s| ==> u[lo + |t|..] == s[lo + |t|..]
  {
    s[..lo] + t + s[Min(lo + |t|, |s|)..]
  }

  // ----- the stream -----

  function StreamByte(p: Suite, key: Bytes, nonce: Bytes, j: nat): Byte {
    p.block(key, nonce, (j / 64) % WORD, (j / 64) / WORD % WORD)[j % 64]
  }

  function Keystream(p: Suite, key: Bytes, nonce: Bytes, n: nat): (k: Bytes)
    ensures |k| == n && forall j :: 0 <= j < n ==> k[j] == StreamByte(p, key, nonce, j)
  {
    seq(n, j requires 0 <= j < n => StreamByte(p, key, nonce, j))
  }

  function Crypt(p: Suite, key: Bytes, nonce: Bytes, data: Bytes): (out: Bytes)
    ensures |out| == |data|
  {
    XorBytes(data, Keystream(p, key, nonce, |data|))
  }

  /** chacha20: the counter is kept in two words. */
  method Chacha20(p: Suite, key: Bytes, nonce: Bytes, data: Bytes) returns (out: Bytes)
    ensures out == Crypt(p, key, nonce, data)
  {
    hide XorByte, StreamByte;
    out := [];
    var off, low, high := 0, 0, 0;
    ghost var i := 0;
    while off < |data|
      invariant off == Min(64 * i, |data|) && |out| == off
      invariant low == i % WORD && high == i / WORD % WORD
      invariant forall j :: 0 <= j < off ==> out[j] == XorByte(data[j], StreamByte(p, key, nonce, j))
      decreases |data| - off
    {
      var ks := p.block(key, nonce, low, high);
      var n := Min(64, |data| - off);
      forall j | off <= j < off + n ensures StreamByte(p, key, nonce, j) == ks[j - off] {
        InBlock(p, key, nonce, i, j - off);
      }
      out := out + seq(n, k requires 0 <= k < n => XorByte(data[off + k], ks[k]));
      off := off + n;
      NextCounter(i);
      low := (low + 1) % WORD;
      if low == 0 {
        high := (high + 1) % WORD;
      }
      i := i + 1;
    }
  }

  lemma InBlock(p: Suite, key: Bytes, nonce: Bytes, i: nat, k: nat)
    requires k < 64
    ensures StreamByte(p, key, nonce, 64 * i + k) == p.block(key, nonce, i % WORD, i / WORD % WORD)[k]
  {
    assert (64 * i + k) / 64 == i && (64 * i + k) % 64 == k;
  }

  /** The carry from the low counter word to the high one. */
  lemma NextCounter(i: nat)
    ensures var low := (i % WORD + 1) % WORD;
            && low == (i + 1) % WORD
            && (i + 1) / WORD % WORD == if low == 0 then (i / WORD % WORD + 1) % WORD else i / WORD % WORD
  {
  }

  lemma CryptTwice(p: Suite, key: Bytes, nonce: Bytes, data: Bytes)
    ensures Crypt(p, key, nonce, Crypt(p, key, nonce, data)) == data
  {
    hide XorBytes, Keystream;
    XorTwice(data, Keystream(p, key, nonce, |data|));
  }

  // ----- records -----

  const MAGIC: Bytes := [0x56, 0x43, 0x4B, 0x53]

  /** Magic, version, key derivation, stripes, cost, payload length, salt. */
  function LabeledHead(s: nat, salt: Digest): (t: Bytes)
    ensures |t| == LABEL && t[14..] == salt
  {
    MAGIC + [if s >= 2 then 2 else 1, 1] + LittleEndian(if s >= 2 then s else 0, 2) + LittleEndian(256, 4) + LittleEndian(PLEN, 2) + salt
  }

  /** What the tag of a bare record covers besides the ciphertext. */
  function BareData(salt: Bytes): (t: Bytes)
    ensures |t| == 8 + |salt|
  {
    MAGIC + [0x62, 0x61, 0x72, 0x65] + salt
  }

  /** Ciphertext and tag of a blob. */
  function Sealed(p: Suite, pw: Bytes, salt: Bytes, aad: Bytes, blob: Bytes): (t: Bytes)
    ensures |t| == |blob| + 32
  {
    var dk := p.kdf(pw, salt);
    var ct := Crypt(p, dk[..32], dk[32..40], blob);
    ct + p.mac(dk[40..], aad + ct)
  }

  function LabeledRecord(p: Suite, pw: Bytes, s: nat, salt: Digest, pad: Bytes, blob: Bytes): (rec: Bytes)
    requires |pad| == STRIDE
    ensures |rec| == if LABEL + |blob| + 32 <= STRIDE then STRIDE else LABEL + |blob| + 32
  {
    var head := LabeledHead(s, salt);
    Assign(Assign(pad, 0, head), LABEL, Sealed(p, pw, salt, head, blob))
  }

  function BareRecord(p: Suite, pw: Bytes, salt: Digest, pad: Bytes, blob: Bytes): (rec: Bytes)
    requires |pad| == STRIDE
    ensures |rec| == if BARE + |blob| + 32 <= STRIDE then STRIDE else BARE + |blob| + 32
  {
    Assign(Assign(pad, 0, salt), BARE, Sealed(p, pw, salt, BareData(salt), blob))
  }

  /** The blob of flags and volume key for given random stripes. */
  function Blob(h: Hash, content: Opened, fill: seq<Bytes>): Bytes
    requires forall i :: 0 <= i < |fill| ==> |fill[i]| == PLEN
  {
    Join(Split(Luks(h), [content.flags] + content.vmk, fill))
  }

  /** What the generator contributes to a record, in the order it is drawn. */
  datatype Drawn = Drawn(salt: Digest, pad: Bytes, fill: seq<Bytes>)

  function DrawnFrom(state: nat, s: nat): (d: Drawn)
    ensures |d.pad| == STRIDE && |d.fill| == if s == 0 then 0 else s - 1
    ensures forall i :: 0 <= i < |d.fill| ==> |d.fill[i]| == PLEN
  {
    var t := Skip(state, 32);
    Drawn(Draw(state, 32), Draw(t, STRIDE), Fill(Skip(t, STRIDE), PLEN, if s == 0 then 0 else s - 1))
  }

  /** Writing two adjacent pieces writes both at once. */
  lemma AssignTwice(s: Bytes, lo: nat, t: Bytes, u: Bytes)
    requires lo <= |s|
    ensures Assign(Assign(s, lo, t), lo + |t|, u) == Assign(s, lo, t + u)
  {
  }

  lemma AssignOne(s: Bytes, i: nat, b: Byte)
    requires i < |s|
    ensures s[i := b] == Assign(s, i, [b])
  {
  }

  /** The fields of the head, in order. */
  method WriteHead(pad: Bytes, s: nat, salt: Digest) returns (rec: Bytes)
    requires |pad| == STRIDE
    ensures rec == Assign(pad, 0, LabeledHead(s, salt)) && |rec| == STRIDE && rec[..LABEL] == LabeledHead(s, salt)
  {
    hide Assign, LittleEndian, Min, LabeledHead;
    var version: Byte, stripes := if s >= 2 then 2 else 1, LittleEndian(if s >= 2 then s else 0, 2);
    LittleZero();
    rec := Assign(pad, 0, MAGIC);
    AssignOne(rec, 4, version);
    AssignTwice(pad, 0, MAGIC, [version]);
    rec := rec[4 := version];
    AssignOne(rec, 5, 1);
    AssignTwice(pad, 0, MAGIC + [version], [1]);
    rec := rec[5 := 1];
    AssignTwice(pad, 0, MAGIC + [version] + [1], stripes);
    rec := Assign(rec, 6, if s >= 2 then LittleEndian(s, 2) else [0, 0]);
    ghost var head := MAGIC + [version] + [1] + stripes;
    AssignTwice(pad, 0, head, LittleEndian(256, 4));
    rec := Assign(rec, 8, LittleEndian(256, 4));
    AssignTwice(pad, 0, head + LittleEndian(256, 4), LittleEndian(PLEN, 2));
    rec := Assign(rec, 12, LittleEndian(PLEN, 2));
    AssignTwice(pad, 0, head + LittleEndian(256, 4) + LittleEndian(PLEN, 2), salt);
    rec := Assign(rec, 14, salt);
    HeadIs(s, salt);
    assert LabeledHead(s, salt) == head + LittleEndian(256, 4) + LittleEndian(PLEN, 2) + salt;
  }

  lemma LittleZero()
    ensures LittleEndian(0, 2) == [0, 0]
  {
    assert Low(0) == 0;
    assert LittleEndian(0, 2) == [Low(0)] + ([Low(0)] + []);
  }

  lemma HeadIs(s: nat, salt: Digest)
    ensures LabeledHead(s, salt) == MAGIC + [if s >= 2 then 2 else 1] + [1] + LittleEndian(if s >= 2 then s else 0, 2)
                                    + LittleEndian(256, 4) + LittleEndian(PLEN, 2) + salt
  {
    hide LittleEndian;
  }

  /** add_labeled: the record is written piece by piece. */
  method AddLabeled(p: Suite, rng: Lcg, pw: Bytes, content: Opened, s: nat) returns (rec: Bytes)
    requires s < 0x1_0000
    modifies rng
    ensures var d := DrawnFrom(old(rng.s), s);
            rec == LabeledRecord(p, pw, s, d.salt, d.pad, Blob(p.hash, content, d.fill))
  {
    hide Draw, Fill, Skip, Luks, Split, Join, Crypt;
    var salt := rng.Rand(32);
    var pad := rng.Rand(STRIDE);
    var blob := SplitBlob(p.hash, [content.flags] + content.vmk, s, rng);
    var n := |blob|;
    rec := WriteHead(pad, s, salt);
    var aad := rec[..LABEL];
    var dk := p.kdf(pw, salt);
    var ct := Chacha20(p, dk[..32], dk[32..40], blob);
    ghost var headed := rec;
    rec := Assign(rec, LABEL, ct);
    rec := Assign(rec, LABEL + n, p.mac(dk[40..], aad + ct));
    AssignTwice(headed, LABEL, ct, p.mac(dk[40..], aad + ct));
  }

  /** add_bare. */
  method AddBare(p: Suite, rng: Lcg, pw: Bytes, content: Opened, s: nat) returns (rec: Bytes)
    modifies rng
    ensures var d := DrawnFrom(old(rng.s), s);
            rec == BareRecord(p, pw, d.salt, d.pad, Blob(p.hash, content, d.fill))
  {
    hide Draw, Fill, Skip, Luks, Split, Join, Crypt;
    var salt := rng.Rand(32);
    rec := rng.Rand(STRIDE);
    var blob := SplitBlob(p.hash, [content.flags] + content.vmk, s, rng);
    rec := Assign(rec, 0, salt);
    var aad := BareData(salt);
    var dk := p.kdf(pw, salt);
    var ct := Chacha20(p, dk[..32], dk[32..40], blob);
    ghost var headed := rec;
    rec := Assign(rec, BARE, ct);
    rec := Assign(rec, BARE + |blob|, p.mac(dk[40..], aad + ct));
    AssignTwice(headed, BARE, ct, p.mac(dk[40..], aad + ct));
  }

  // ----- opening -----

  function SlotOf(area: Bytes, i: nat): Bytes {
    Slice(area, i * STRIDE, (i + 1) * STRIDE)
  }

  /** Whether the tag at offset at + n covers the data and the n bytes before it. */
  predicate TagMatches(p: Suite, rec: Bytes, pw: Bytes, salt: Bytes, aad: Bytes, at: nat, n: nat) {
    p.mac(p.kdf(pw, salt)[40..], aad + Slice(rec, at, at + n)) == Slice(rec, at + n, at + n + 32)
  }

  function Payload(p: Suite, rec: Bytes, pw: Bytes, salt: Bytes, at: nat, s: nat): Opened
    requires 1 <= s && at + PLEN * s <= |rec|
  {
    var dk := p.kdf(pw, salt);
    var m := Merge(Luks(p.hash), Crypt(p, dk[..32], dk[32..40], rec[at..at + PLEN * s]), PLEN, s);
    Opened(m[0], m[1..])
  }

  function OpenAt(p: Suite, rec: Bytes, pw: Bytes, salt: Bytes, aad: Bytes, at: nat, s: nat): (r: Outcome)
    ensures r.NotFound? <==> !TagMatches(p, rec, pw, salt, aad, at, PLEN * s)
    ensures !r.NotFound? ==> at + PLEN * s + 32 <= |rec| && (r.IndexError? <==> s == 0)
  {
    if !TagMatches(p, rec, pw, salt, aad, at, PLEN * s) then NotFound
    else if s == 0 then IndexError
    else Found(Payload(p, rec, pw, salt, at, s))
  }

  function OpenLabeledSlot(p: Suite, rec: Bytes, pw: Bytes, s: nat): Outcome
  {
    OpenAt(p, rec, pw, Slice(rec, 14, LABEL), Slice(rec, 0, LABEL), LABEL, s)
  }

  /** What the first slot from i on that opens gives. */
  function OpenFrom(p: Suite, area: Bytes, pw: Bytes, s: nat, i: nat): Outcome
    requires i <= SLOTS
    decreases SLOTS - i
  {
    if i == SLOTS then NotFound
    else
      var r := OpenLabeledSlot(p, SlotOf(area, i), pw, s);
      if r.NotFound? then OpenFrom(p, area, pw, s, i + 1) else r
  }

  function OpenLabeledSpec(p: Suite, area: Bytes, pw: Bytes, s: nat): Outcome
  {
    OpenFrom(p, area, pw, s, 0)
  }

  function DeniableIndex(p: Suite, pw: Bytes): (i: nat)
    ensures i < SLOTS
  {
    var h := p.hash(MAGIC + [0x6C, 0x6F, 0x63] + pw);
    (Value(h[0]) + 0x100 * Value(h[1]) + 0x1_0000 * Value(h[2]) + 0x100_0000 * Value(h[3])) % SLOTS
  }

  function OpenBareSpec(p: Suite, area: Bytes, pw: Bytes, s: nat): Outcome
  {
    var rec := SlotOf(area, DeniableIndex(p, pw));
    var salt := Slice(rec, 0, 32);
    OpenAt(p, rec, pw, salt, BareData(salt), BARE, s)
  }

  method OpenRecord(p: Suite, rec: Bytes, pw: Bytes, salt: Bytes, aad: Bytes, at: nat, s: nat) returns (r: Outcome)
    ensures r == OpenAt(p, rec, pw, salt, aad, at, s)
  {
    hide Crypt, Merge, Luks;
    var n := PLEN * s;
    var dk := p.kdf(pw, salt);
    var ct := Slice(rec, at, at + n);
    if p.mac(dk[40..], aad + ct) != Slice(rec, at + n, at + n + 32) {
      return NotFound;
    }
    var blob := Chacha20(p, dk[..32], dk[32..40], ct);
    var payload := MergeBlob(p.hash, blob, PLEN, s);
    r := if payload == [] then IndexError else Found(Opened(payload[0], payload[1..]));
  }

  /** open_labeled: the first slot whose tag matches. */
  method OpenLabeled(p: Suite, area: Bytes, pw: Bytes, s: nat) returns (r: Outcome)
    ensures r == OpenLabeledSpec(p, area, pw, s)
  {
    hide OpenAt, Slice;
    for i := 0 to SLOTS
      invariant OpenLabeledSpec(p, area, pw, s) == OpenFrom(p, area, pw, s, i)
    {
      var rec := Slice(area, i * STRIDE, (i + 1) * STRIDE);
      r := OpenRecord(p, rec, pw, Slice(rec, 14, LABEL), Slice(rec, 0, LABEL), LABEL, s);
      if !r.NotFound? {
        return;
      }
    }
    r := NotFound;
  }

  /** open_bare: one slot, chosen by the passphrase. */
  method OpenBare(p: Suite, area: Bytes, pw: Bytes, s: nat) returns (r: Outcome)
    ensures r == OpenBareSpec(p, area, pw, s)
  {
    hide OpenAt, Slice;
    var idx := DeniableIndex(p, pw);
    var rec := Slice(area, idx * STRIDE, (idx + 1) * STRIDE);
    var salt := Slice(rec, 0, 32);
    r := OpenRecord(p, rec, pw, salt, BareData(salt), BARE, s);
  }

  // ----- round trips -----

  /** Opening what was sealed, with the same passphrase, salt and data. */
  lemma OpenSealed(p: Suite, rec: Bytes, pw: Bytes, salt: Bytes, aad: Bytes, at: nat, content: Opened, fill: seq<Bytes>)
    requires forall i :: 0 <= i < |fill| ==> |fill[i]| == PLEN
    requires var n := PLEN * (|fill| + 1);
             && at + n + 32 <= |rec|
             && rec[at..at + n + 32] == Sealed(p, pw, salt, aad, Blob(p.hash, content, fill))
    ensures OpenAt(p, rec, pw, salt, aad, at, |fill| + 1) == Found(content)
  {
    hide Crypt, Merge, Luks, Split, Join;
    var s, n := |fill| + 1, PLEN * (|fill| + 1);
    var material := [content.flags] + content.vmk;
    var blob := Blob(p.hash, content, fill);
    var dk := p.kdf(pw, salt);
    MergeSplit(Luks(p.hash), material, fill);
    CryptTwice(p, dk[..32], dk[32..40], blob);
    CutTwice(rec, at, n, 32);
  }

  lemma CutTwice(s: Bytes, at: nat, n: nat, m: nat)
    requires at + n + m <= |s|
    ensures s[at..at + n] == s[at..at + n + m][..n] && s[at + n..at + n + m] == s[at..at + n + m][n..]
  {
  }

  /** Whatever the area holds, nothing opens under more stripes than fit. */
  lemma TooManyStripes(p: Suite, rec: Bytes, pw: Bytes, salt: Bytes, aad: Bytes, at: nat, s: nat)
    requires |rec| <= STRIDE < at + PLEN * s + 32
    ensures OpenAt(p, rec, pw, salt, aad, at, s) == NotFound
  {
  }

  lemma {:induction false} OpenFromSkips(p: Suite, area: Bytes, pw: Bytes, s: nat, i: nat, k: nat)
    requires i <= k <= SLOTS
    requires forall j :: i <= j < k ==> OpenLabeledSlot(p, SlotOf(area, j), pw, s) == NotFound
    ensures OpenFrom(p, area, pw, s, i) == OpenFrom(p, area, pw, s, k)
    decreases k - i
  {
    hide OpenLabeledSlot, SlotOf;
    if i < k {
      OpenFromSkips(p, area, pw, s, i + 1, k);
    }
  }

  /** The first slot that opens decides, whatever later slots hold. */
  lemma FirstSlotWins(p: Suite, area: Bytes, pw: Bytes, s: nat, k: nat)
    requires k <= SLOTS
    requires forall j :: 0 <= j < k ==> OpenLabeledSlot(p, SlotOf(area, j), pw, s) == NotFound
    ensures k < SLOTS && OpenLabeledSlot(p, SlotOf(area, k), pw, s) != NotFound ==>
              OpenLabeledSpec(p, area, pw, s) == OpenLabeledSlot(p, SlotOf(area, k), pw, s)
    ensures k == SLOTS ==> OpenLabeledSpec(p, area, pw, s) == NotFound
  {
    hide OpenLabeledSlot, SlotOf;
    OpenFromSkips(p, area, pw, s, 0, k);
  }

  /** Writing a record over slot k. */
  function Place(area: Bytes, k: nat, rec: Bytes): Bytes
    requires k < SLOTS && |area| == SLOTS * STRIDE
  {
    area[..k * STRIDE] + rec + area[(k + 1) * STRIDE..]
  }

  lemma PlacedSlots(area: Bytes, k: nat, rec: Bytes)
    requires k < SLOTS && |area| == SLOTS * STRIDE && |rec| == STRIDE
    ensures forall j :: 0 <= j < SLOTS ==> SlotOf(Place(area, k, rec), j) == if j == k then rec else SlotOf(area, j)
  {
    hide Slice;
    var placed := Place(area, k, rec);
    forall j | 0 <= j < SLOTS ensures SlotOf(placed, j) == if j == k then rec else SlotOf(area, j) {
      assert SlotOf(placed, j) == placed[j * STRIDE..(j + 1) * STRIDE];
    }
  }

  predicate Fits(d: Drawn, s: nat) {
    1 <= s && |d.pad| == STRIDE && |d.fill| == s - 1 && forall i :: 0 <= i < |d.fill| ==> |d.fill[i]| == PLEN
  }

  lemma BlobLength(h: Hash, content: Opened, fill: seq<Bytes>)
    requires forall i :: 0 <= i < |fill| ==> |fill[i]| == PLEN
    ensures |Blob(h, content, fill)| == PLEN * (|fill| + 1)
  {
    hide Split, Join;
    JoinLength(Split(Luks(h), [content.flags] + content.vmk, fill), PLEN);
  }

  /** A labeled record opens to what was put in, provided that it fits its slot. */
  lemma LabeledSlotOpens(p: Suite, pw: Bytes, s: nat, d: Drawn, content: Opened)
    requires Fits(d, s) && s <= 14
    ensures var rec := LabeledRecord(p, pw, s, d.salt, d.pad, Blob(p.hash, content, d.fill));
            |rec| == STRIDE && OpenLabeledSlot(p, rec, pw, s) == Found(content)
  {
    hide LabeledHead, Sealed, OpenAt, Blob, Min;
    BlobLength(p.hash, content, d.fill);
    var head := LabeledHead(s, d.salt);
    var rec := LabeledRecord(p, pw, s, d.salt, d.pad, Blob(p.hash, content, d.fill));
    assert rec[..LABEL] == head;
    assert Slice(rec, 14, LABEL) == rec[..LABEL][14..] == d.salt && Slice(rec, 0, LABEL) == rec[..LABEL];
    OpenSealed(p, rec, pw, d.salt, head, LABEL, content, d.fill);
  }

  lemma BareSlotOpens(p: Suite, pw: Bytes, s: nat, d: Drawn, content: Opened)
    requires Fits(d, s) && s <= 14
    ensures var rec := BareRecord(p, pw, d.salt, d.pad, Blob(p.hash, content, d.fill));
            |rec| == STRIDE && Slice(rec, 0, 32) == d.salt
            && OpenAt(p, rec, pw, d.salt, BareData(d.salt), BARE, s) == Found(content)
  {
    hide Sealed, OpenAt, Blob, Min, BareData;
    BlobLength(p.hash, content, d.fill);
    var rec := BareRecord(p, pw, d.salt, d.pad, Blob(p.hash, content, d.fill));
    assert rec[..BARE] == d.salt;
    OpenSealed(p, rec, pw, d.salt, BareData(d.salt), BARE, content, d.fill);
  }

  /** Putting a labeled record in any slot and searching the area gives the
      flags and the key back if and only if it has at most fourteen stripes,
      provided that no earlier slot opens. */
  lemma LabeledRoundTripIff(p: Suite, area: Bytes, k: nat, pw: Bytes, s: nat, d: Drawn, content: Opened)
    requires k < SLOTS && |area| == SLOTS * STRIDE && Fits(d, s)
    requires forall j :: 0 <= j < k ==> OpenLabeledSlot(p, SlotOf(area, j), pw, s) == NotFound
    ensures var rec := LabeledRecord(p, pw, s, d.salt, d.pad, Blob(p.hash, content, d.fill));
            OpenLabeledSpec(p, Place(area, k, rec), pw, s) == if s <= 14 then Found(content) else NotFound
  {
    hide OpenLabeledSlot, LabeledRecord, Blob, OpenLabeledSpec, SlotOf, Place;
    var rec := LabeledRecord(p, pw, s, d.salt, d.pad, Blob(p.hash, content, d.fill));
    var placed := Place(area, k, rec);
    if s <= 14 {
      LabeledSlotOpens(p, pw, s, d, content);
      PlacedSlots(area, k, rec);
      FirstSlotWins(p, placed, pw, s, k);
    } else {
      forall j | 0 <= j < SLOTS ensures OpenLabeledSlot(p, SlotOf(placed, j), pw, s) == NotFound {
        CrowdedSlot(p, placed, j, pw, s);
      }
      FirstSlotWins(p, placed, pw, s, SLOTS);
    }
  }

  lemma CrowdedSlot(p: Suite, area: Bytes, j: nat, pw: Bytes, s: nat)
    requires 15 <= s
    ensures OpenLabeledSlot(p, SlotOf(area, j), pw, s) == NotFound
  {
    hide OpenAt, Slice;
    var rec := SlotOf(area, j);
    TooManyStripes(p, rec, pw, Slice(rec, 14, LABEL), Slice(rec, 0, LABEL), LABEL, s);
  }

  /** A bare record in its slot: the same, without any proviso. */
  lemma BareRoundTripIff(p: Suite, area: Bytes, pw: Bytes, s: nat, d: Drawn, content: Opened)
    requires |area| == SLOTS * STRIDE && Fits(d, s)
    ensures var rec := BareRecord(p, pw, d.salt, d.pad, Blob(p.hash, content, d.fill));
            OpenBareSpec(p, Place(area, DeniableIndex(p, pw), rec), pw, s) == if s <= 14 then Found(content) else NotFound
  {
    hide OpenAt, Slice, BareRecord, Blob, DeniableIndex, BareData, Place;
    var rec := BareRecord(p, pw, d.salt, d.pad, Blob(p.hash, content, d.fill));
    var i := DeniableIndex(p, pw);
    var placed := Place(area, i, rec);
    if s <= 14 {
      BareSlotOpens(p, pw, s, d, content);
      PlacedSlots(area, i, rec);
    } else {
      var slot := SlotOf(placed, i);
      var salt := Slice(slot, 0, 32);
      TooManyStripes(p, slot, pw, salt, BareData(salt), BARE, s);
    }
  }

  // ----- tampering -----

  /** Two different messages with the same tag. */
  ghost predicate TagCollision(p: Suite, key: Bytes, m: Bytes, key': Bytes, m': Bytes) {
    m != m' && p.mac(key, m) == p.mac(key', m')
  }

  /** If a slot still opens, under any passphrase, after a change to its head or
      ciphertext that leaves the tag alone, the two states collide: the keys
      derived for them give their different contents the same tag. */
  lemma TamperedSlot(p: Suite, rec: Bytes, pw: Bytes, changed: Bytes, pw': Bytes, s: nat)
      returns (key: Bytes, key': Bytes)
    requires |rec| == |changed| == STRIDE
    requires OpenLabeledSlot(p, rec, pw, s) != NotFound && OpenLabeledSlot(p, changed, pw', s) != NotFound
    requires var n := LABEL + PLEN * s; rec[..n] != changed[..n] && Slice(rec, n, n + 32) == Slice(changed, n, n + 32)
    ensures key == p.kdf(pw, Slice(rec, 14, LABEL))[40..] && key' == p.kdf(pw', Slice(changed, 14, LABEL))[40..]
    ensures var n := LABEL + PLEN * s; TagCollision(p, key, rec[..n], key', changed[..n])
  {
    hide Min;
    var n := LABEL + PLEN * s;
    key, key' := p.kdf(pw, Slice(rec, 14, LABEL))[40..], p.kdf(pw', Slice(changed, 14, LABEL))[40..];
    assert rec[..n] == Slice(rec, 0, LABEL) + Slice(rec, LABEL, n);
    assert changed[..n] == Slice(changed, 0, LABEL) + Slice(changed, LABEL, n);
  }

  /** No message that is tagged for a labeled record is one for a bare record. */
  lemma DomainsSeparate(s: nat, salt: Digest, ct: Bytes, salt': Digest, ct': Bytes)
    ensures LabeledHead(s, salt) + ct != BareData(salt') + ct'
  {
    assert (LabeledHead(s, salt) + ct)[4] == if s >= 2 then 2 else 1;
    assert (BareData(salt') + ct')[4] == 0x62;
  }

  /** Different numbers of stripes are told apart by the tagged head. */
  lemma HeadBindsStripes(s: nat, salt: Digest, s': nat, salt': Digest)
    requires 1 <= s < 0x1_0000 && 1 <= s' < 0x1_0000 && LabeledHead(s, salt) == LabeledHead(s', salt')
    ensures s == s' && salt == salt'
  {
    hide Low;
    var a, b := LabeledHead(s, salt), LabeledHead(s', salt');
    assert a[14..] == salt && b[14..] == salt';
    assert a[4] == (if s >= 2 then 2 else 1) && b[4] == if s' >= 2 then 2 else 1;
    if s >= 2 {
      assert a[6..8] == LittleEndian(s, 2) && b[6..8] == LittleEndian(s', 2);
      TwoBytes();
      LittleEndianInjective(s, s', 2);
    }
  }

  lemma TwoBytes()
    ensures PowersOfTwo.Pow2(8 * 2) == 0x1_0000
  {
    hide PowersOfTwo.Pow2;
    PowersOfTwo.Pow2Small();
    PowersOfTwo.Pow2Add(8, 8);
  }
}
