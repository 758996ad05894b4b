/** codex32 share strings: a header, the packed payload and the checksum, spelled
    in a 32-character alphabet behind the prefix "ms1". */
module Codex32 {
  import opened Codex32Checksum
  import opened ByteNumbers
  import opened Codex32Packing
  import opened Wrappers

  const CHARSET: string := "qpzry9x8gf2tvdw0s3jn54khce6mua7l"

  /** The ways decoding can fail: the two assertions, a character outside the
      alphabet, and a body too short to hold a header. */
  datatype Error = Prefix | BadCharacter | Checksum | Short

  datatype Decoded = Decoded(k: Option<int>, ident: string, shareIndex: string, seed: seq<Byte>)

  datatype Result = Ok(value: Decoded) | Err(error: Error)

  // ----- the alphabet -----

  /** The first position from i on at which the alphabet continues with `sub`. */
  function FindFrom(sub: string, i: nat): (r: Option<Five>)
    requires i <= 32
    ensures r.Some? ==> r.value + |sub| <= 32 && CHARSET[r.value..r.value + |sub|] == sub
    decreases 32 - i
  {
    if i + |sub| > 32 || i == 32 then None
    else if CHARSET[i..i + |sub|] == sub then Some(i)
    else FindFrom(sub, i + 1)
  }

  /** The built-in index method, which searches for a substring. */
  function Index(sub: string): (r: Option<Five>)
    ensures r.Some? ==> r.value + |sub| <= 32 && CHARSET[r.value..r.value + |sub|] == sub
  {
    FindFrom(sub, 0)
  }

  function Indices(s: string): (r: Option<seq<Five>>)
    ensures r.Some? ==> |r.value| == |s|
  {
    if s == [] then Some([])
    else
      var head, tail := Index([s[0]]), Indices(s[1..]);
      if head.None? || tail.None? then None else Some([head.value] + tail.value)
  }

  function Chars(data: seq<Five>): (s: string)
    ensures |s| == |data|
    ensures forall i :: 0 <= i < |s| ==> s[i] == CHARSET[data[i]]
  {
    seq(|data|, i requires 0 <= i < |data| => CHARSET[data[i]])
  }

  /** Where each character stands in the alphabet. */
  function Position(c: char): int {
    match c
    case 'q' => 0 case 'p' => 1 case 'z' => 2 case 'r' => 3 case 'y' => 4 case '9' => 5 case 'x' => 6 case '8' => 7
    case 'g' => 8 case 'f' => 9 case '2' => 10 case 't' => 11 case 'v' => 12 case 'd' => 13 case 'w' => 14 case '0' => 15
    case 's' => 16 case '3' => 17 case 'j' => 18 case 'n' => 19 case '5' => 20 case '4' => 21 case 'k' => 22 case 'h' => 23
    case 'c' => 24 case 'e' => 25 case '6' => 26 case 'm' => 27 case 'u' => 28 case 'a' => 29 case '7' => 30 case 'l' => 31
    case _ => -1
  }

  lemma PositionOfChar(d: Five)
    ensures Position(CHARSET[d]) == d
  {
  }

  /** Every symbol is found again from its character. */
  lemma {:induction false} FindChar(d: Five, i: nat)
    requires i <= d
    ensures FindFrom([CHARSET[d]], i) == Some(d)
    decreases d - i
  {
    hide Position;
    PositionOfChar(d);
    PositionOfChar(i);
    assert CHARSET[i..i + 1] == [CHARSET[i]];
    if i < d {
      assert CHARSET[i] != CHARSET[d];
      assert CHARSET[i..i + 1][0] != [CHARSET[d]][0];
      FindChar(d, i + 1);
    }
  }

  lemma {:induction false} IndicesOfChars(data: seq<Five>)
    ensures Indices(Chars(data)) == Some(data)
  {
    hide Index;
    if data != [] {
      IndexOfChar(data[0]);
      IndicesOfChars(data[1..]);
      assert Chars(data)[1..] == Chars(data[1..]);
      assert data == [data[0]] + data[1..];
    }
  }

  lemma IndexOfChar(d: Five)
    ensures Index([CHARSET[d]]) == Some(d)
  {
    FindChar(d, 0);
  }

  /** Reading indices back as characters gives the string they came from. */
  lemma {:induction false} CharsOfIndices(s: string)
    ensures Indices(s).Some? ==> Chars(Indices(s).value) == s
  {
    hide Index;
    if s != [] && Indices(s).Some? {
      CharsOfIndices(s[1..]);
      var data := Indices(s).value;
      assert data[1..] == Indices(s[1..]).value;
      IndexIsChar(s[0]);
      assert s == [s[0]] + s[1..] == Chars(data);
    }
  }

  lemma IndexIsChar(c: char)
    ensures Index([c]).Some? ==> CHARSET[Index([c]).value] == c
  {
    if Index([c]).Some? {
      var i := Index([c]).value;
      assert CHARSET[i..i + 1][0] == [c][0];
    }
  }

  /** The ASCII part of the built-in lower method. */
  function LowerChar(c: char): char {
    if 'A' <= c <= 'Z' then c + 32 as char else c
  }

  function Lower(s: string): (t: string)
    ensures |t| == |s|
    ensures forall i :: 0 <= i < |s| ==> t[i] == LowerChar(s[i])
  {
    seq(|s|, i requires 0 <= i < |s| => LowerChar(s[i]))
  }

  lemma LowerCharset(d: Five)
    ensures LowerChar(CHARSET[d]) == CHARSET[d]
  {
  }

  function AsSymbols(data: seq<Five>): (s: seq<Symbol>)
    ensures |s| == |data|
    ensures forall i :: 0 <= i < |s| ==> s[i] == data[i] as Symbol
  {
    seq(|data|, i requires 0 <= i < |data| => data[i] as Symbol)
  }

  function AsFives(s: seq<Symbol>): (data: seq<Five>)
    ensures |data| == |s|
    ensures forall i :: 0 <= i < |s| ==> data[i] == s[i] as Five
  {
    seq(|s|, i requires 0 <= i < |s| => s[i] as Five)
  }

  lemma SymbolsOfFives(s: seq<Symbol>)
    ensures AsSymbols(AsFives(s)) == s
  {
  }

  lemma SymbolDetermines(x: Five, y: Five)
    ensures x as Symbol == y as Symbol ==> x == y
  {
    assert (x as Symbol) as Five == x && (y as Symbol) as Five == y;
  }

  lemma AsSymbolsInjective(a: seq<Five>, b: seq<Five>)
    requires |a| == |b|
    ensures AsSymbols(a) == AsSymbols(b) ==> a == b
  {
    if AsSymbols(a) == AsSymbols(b) {
      forall i | 0 <= i < |a| ensures a[i] == b[i] {
        assert AsSymbols(a)[i] == AsSymbols(b)[i];
        SymbolDetermines(a[i], b[i]);
      }
    }
  }

  // ----- encoding and decoding -----

  function Decimal(k: int): (s: string)
    ensures s != []
    decreases if k < 0 then 1 - k else k
  {
    if k < 0 then "-" + Decimal(-k)
    else if k < 10 then [(k + 48) as char]
    else Decimal(k / 10) + [(k % 10 + 48) as char]
  }

  /** The data symbols, or nothing where an index raises an error. */
  function Body(k: int, ident: string, shareIndex: string, payload: seq<Byte>): Option<seq<Five>> {
    var a, b, c := Index(Decimal(k)), Indices(ident), Index(shareIndex);
    if a.None? || b.None? || c.None? then None
    else Some([a.value] + b.value + [c.value] + To5Of(payload))
  }

  function WithChecksum(data: seq<Five>): seq<Five> {
    data + AsFives(CreateChecksum(AsSymbols(data)))
  }

  function Encode(k: int, ident: string, shareIndex: string, payload: seq<Byte>): Option<string> {
    var data := Body(k, ident, shareIndex, payload);
    if data.None? then None else Some("ms1" + Chars(WithChecksum(data.value)))
  }

  function Digit(c: char): Option<int> {
    if '0' <= c <= '9' then Some(c as int - '0' as int) else None
  }

  function ReadBody(body: seq<Five>): Result {
    if |body| < 6 then Err(Short)
    else Ok(Decoded(Digit(CHARSET[body[0]]), Chars(body[1..5]), [CHARSET[body[5]]], From5Of(body[6..])))
  }

  /** The data without its checksum symbols, data[:-csum]. */
  function WithoutChecksum(data: seq<Five>): seq<Five> {
    var csum := if |data| >= 96 then 15 else 13;
    if |data| < csum then [] else data[..|data| - csum]
  }

  function Decode(s: string): Result {
    var t := Lower(s);
    if t[..if |t| < 3 then |t| else 3] != "ms1" then Err(Prefix)
    else
      var data := Indices(t[3..]);
      if data.None? then Err(BadCharacter)
      else if !VerifyChecksum(AsSymbols(data.value)) then Err(Checksum)
      else ReadBody(WithoutChecksum(data.value))
  }

  // ----- the round trip -----

  lemma LowerOfSpelled(all: seq<Five>)
    ensures Lower("ms1" + Chars(all)) == "ms1" + Chars(all)
  {
    hide LowerChar;
    var s := "ms1" + Chars(all);
    forall i | 0 <= i < |s| ensures LowerChar(s[i]) == s[i] {
      LowerPrefix();
      if i >= 3 {
        LowerCharset(all[i - 3]);
      }
    }
  }

  lemma ChecksumOfSpelled(data: seq<Five>)
    ensures VerifyChecksum(AsSymbols(WithChecksum(data)))
    ensures WithoutChecksum(WithChecksum(data)) == data
  {
    hide VerifyChecksum, CreateChecksum;
    var c := CreateChecksum(AsSymbols(data));
    SymbolsOfFives(c);
    assert AsSymbols(WithChecksum(data)) == AsSymbols(data) + c;
    CreatedVerifies(AsSymbols(data));
  }

  /** Decoding a string that was built from data symbols reads those symbols. */
  lemma DecodeOfSpelled(data: seq<Five>)
    ensures Decode("ms1" + Chars(WithChecksum(data))) == ReadBody(data)
  {
    hide VerifyChecksum, ReadBody, Lower, Indices, WithChecksum, WithoutChecksum, AsSymbols;
    var all := WithChecksum(data);
    var s := "ms1" + Chars(all);
    LowerOfSpelled(all);
    assert s[..3] == "ms1" && s[3..] == Chars(all);
    IndicesOfChars(all);
    ChecksumOfSpelled(data);
  }

  lemma LowerPrefix()
    ensures LowerChar('m') == 'm' && LowerChar('s') == 's' && LowerChar('1') == '1'
  {
  }

  /** decode(encode(x)) is x exactly when the threshold is one digit, the
      identifier has four characters and the share index one: the encoder
      checks none of these. */
  lemma EncodeRoundTrip(k: int, ident: string, shareIndex: string, payload: seq<Byte>)
    requires Encode(k, ident, shareIndex, payload).Some?
    ensures Decode(Encode(k, ident, shareIndex, payload).value)
         == Ok(Decoded(Some(k), ident, shareIndex, payload))
       <==> 0 <= k <= 9 && |ident| == 4 && |shareIndex| == 1
  {
    hide Index, VerifyChecksum, CreateChecksum, Decode, WithChecksum;
    var data := Body(k, ident, shareIndex, payload).value;
    DecodeOfSpelled(data);
    if 0 <= k <= 9 && |ident| == 4 && |shareIndex| == 1 {
      var b := Indices(ident).value;
      CharsOfIndices(ident);
      PackingRoundTrip(payload);
      IndexIsChar(Decimal(k)[0]);
      IndexIsChar(shareIndex[0]);
      assert Decimal(k) == [Decimal(k)[0]] && shareIndex == [shareIndex[0]];
      DigitOfDecimal(k);
      assert data[1..5] == b && data[6..] == To5Of(payload);
    }
  }

  lemma DigitOfDecimal(k: int)
    requires 0 <= k <= 9
    ensures Digit(Decimal(k)[0]) == Some(k)
  {
  }

  /** Every one-digit threshold but 1, which the alphabet lacks, every four
      characters and every share index from the alphabet can be encoded. */
  lemma EncodeSucceeds(k: int, ident: string, shareIndex: char, payload: seq<Byte>)
    requires 0 <= k <= 9 && k != 1
    requires forall i :: 0 <= i < |ident| ==> ident[i] in CHARSET
    requires shareIndex in CHARSET
    ensures Encode(k, ident, [shareIndex], payload).Some?
  {
    hide Index;
    IndicesOfKnown(ident);
    IndexOfKnown(shareIndex);
    DigitKnown(k);
    IndexOfKnown(Decimal(k)[0]);
    assert Decimal(k) == [Decimal(k)[0]];
  }

  /** Some threshold of two digits is encoded, as one symbol, and is lost. */
  lemma LongThresholdEncoded(ident: string, shareIndex: char, payload: seq<Byte>)
    requires forall i :: 0 <= i < |ident| ==> ident[i] in CHARSET
    requires shareIndex in CHARSET
    ensures var r := Encode(54, ident, [shareIndex], payload);
            r.Some? && Decode(r.value) != Ok(Decoded(Some(54), ident, [shareIndex], payload))
  {
    hide Index, Encode, Decode;
    IndicesOfKnown(ident);
    IndexOfKnown(shareIndex);
    DecimalOf54();
    PieceOfAlphabet();
    EncodeOfBody(54, ident, [shareIndex], payload);
    EncodeRoundTrip(54, ident, [shareIndex], payload);
  }

  /** A piece of the alphabet is found, at its position or before. */
  lemma {:induction false} PieceFound(sub: string, at: nat, i: nat)
    requires i <= at && at + |sub| <= 32 && at < 32 && CHARSET[at..at + |sub|] == sub
    ensures FindFrom(sub, i).Some?
    decreases at - i
  {
    if i < at {
      PieceFound(sub, at, i + 1);
    }
  }

  lemma EncodeOfBody(k: int, ident: string, shareIndex: string, payload: seq<Byte>)
    requires Index(Decimal(k)).Some? && Indices(ident).Some? && Index(shareIndex).Some?
    ensures Encode(k, ident, shareIndex, payload).Some?
  {
  }

  lemma PieceOfAlphabet()
    ensures Index("54").Some?
  {
    assert CHARSET[20] == '5' && CHARSET[21] == '4';
    assert CHARSET[20..22] == "54";
    PieceFound("54", 20, 0);
  }

  lemma DecimalOf54()
    ensures Decimal(54) == "54"
  {
    assert Decimal(54) == Decimal(5) + ['4'];
    assert Decimal(5) == ['5'];
  }

  lemma DigitKnown(k: int)
    requires 0 <= k <= 9 && k != 1
    ensures Decimal(k)[0] in CHARSET
  {
    assert CHARSET[15] == '0' && CHARSET[10] == '2' && CHARSET[17] == '3' && CHARSET[21] == '4' && CHARSET[20] == '5';
    assert CHARSET[26] == '6' && CHARSET[30] == '7' && CHARSET[7] == '8' && CHARSET[5] == '9';
  }

  lemma IndexOfKnown(c: char)
    requires c in CHARSET
    ensures Index([c]).Some?
  {
    var d: Five :| CHARSET[d] == c;
    IndexOfChar(d);
  }

  lemma {:induction false} IndicesOfKnown(s: string)
    requires forall i :: 0 <= i < |s| ==> s[i] in CHARSET
    ensures Indices(s).Some?
  {
    hide Index;
    if s != [] {
      IndexOfKnown(s[0]);
      IndicesOfKnown(s[1..]);
    }
  }

  // ----- corrupted strings -----

  /** Changing characters within one window of 13 consecutive positions (15 in
      a string with the long checksum) of an accepted string is always
      rejected, wherever the window lies and whatever is written there. */
  lemma CorruptionRejected(s: string, t: string, start: nat, w: nat)
    requires Decode(s).Ok? && |t| == |s| && Lower(t) != Lower(s)
    requires w <= Width(CodeOf(|s| - 3))
    requires forall i :: 0 <= i < |s| && !(start <= i < start + w) ==> Lower(t)[i] == Lower(s)[i]
    ensures Decode(t) in {Err(Prefix), Err(BadCharacter), Err(Checksum)}
  {
    hide Index, VerifyChecksum, ReadBody, Lower, LowerChar, Indices;
    var u, v := Lower(s), Lower(t);
    if |v| >= 3 && v[..3] == "ms1" && Indices(v[3..]).Some? {
      var a, b := Indices(u[3..]).value, Indices(v[3..]).value;
      SameWhereEqual(u[3..], v[3..]);
      assert u[..3] == "ms1";
      assert u == u[..3] + u[3..] && v == v[..3] + v[3..];
      var x, y := AsSymbols(a), AsSymbols(b);
      AsSymbolsInjective(a, b);
      var from, n := if start < 3 then 0 else start - 3, |a|;
      var upto := if start + w < 3 then 0 else start + w - 3;
      var lo, hi := if from < n then from else n, if upto < n then upto else n;
      forall i | 0 <= i < n && !(lo <= i < hi) ensures x[i] == y[i] {
        assert u[i + 3] == v[i + 3];
        assert u[3..][i] == u[i + 3] && v[3..][i] == v[i + 3];
      }
      assert AgreeOutside(x, y, lo, hi - lo);
      BurstDetected(x, y, lo, hi - lo);
    }
  }

  lemma SameWhereEqual(u: string, v: string)
    requires |u| == |v| && Indices(u).Some? && Indices(v).Some?
    ensures forall i :: 0 <= i < |u| && u[i] == v[i] ==> Indices(u).value[i] == Indices(v).value[i]
    ensures Indices(u) == Indices(v) ==> u == v
  {
    hide Index, Indices;
    CharsOfIndices(u);
    CharsOfIndices(v);
    forall i | 0 <= i < |u| && u[i] == v[i] ensures Indices(u).value[i] == Indices(v).value[i] {
      PositionOfChar(Indices(u).value[i]);
      PositionOfChar(Indices(v).value[i]);
    }
  }
}
