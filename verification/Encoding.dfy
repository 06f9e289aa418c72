/** Windows-1252 and UTF-8 (section 3 of RFC 3629), and the byte-level gate of the encoding repair. */
module Encoding {
  import opened Registry

  type Byte = b: nat | b < 0x100
  type Bytes = seq<Byte>
  type CodePoint = c: nat | c < 0x11_0000
  type Text = seq<CodePoint>

  const BOM: Bytes := [0xEF, 0xBB, 0xBF]
  const BOM_CHAR: CodePoint := 0xFEFF

  predicate Scalar(c: CodePoint) { c < 0xD800 || c >= 0xE000 }

  /** The UTF-8 bytes of one character. */
  function EncodeChar(c: CodePoint): (e: Bytes)
    ensures 1 <= |e| <= 4 && (|e| == 1 <==> c < 0x80)
  {
    if c < 0x80 then [c]
    else if c < 0x800 then [0xC0 + c / 0x40, 0x80 + c % 0x40]
    else if c < 0x1_0000 then [0xE0 + c / 0x1000, 0x80 + c / 0x40 % 0x40, 0x80 + c % 0x40]
    else [0xF0 + c / 0x4_0000, 0x80 + c / 0x1000 % 0x40, 0x80 + c / 0x40 % 0x40, 0x80 + c % 0x40]
  }

  function Utf8Encode(t: Text): Bytes
  {
    if t == [] then [] else EncodeChar(t[0]) + Utf8Encode(t[1..])
  }

  predicate Continuation(b: Byte) { 0x80 <= b < 0xC0 }

  /** The first character of `s` under strict decoding: no overlong form, no surrogate, nothing above 0x10FFFF. */
  function DecodeChar(s: Bytes): (r: Option<(CodePoint, nat)>)
    requires s != []
    ensures r.Some? ==> 1 <= r.value.1 <= |s|
  {
    if s[0] < 0x80 then Some((s[0], 1))
    else if 0xC2 <= s[0] < 0xE0 && |s| >= 2 && Continuation(s[1]) then
      Some(((s[0] as int - 0xC0) * 0x40 + (s[1] as int - 0x80), 2))
    else if 0xE0 <= s[0] < 0xF0 && |s| >= 3 && Continuation(s[1]) && Continuation(s[2]) then
      var c := (s[0] as int - 0xE0) * 0x1000 + (s[1] as int - 0x80) * 0x40 + (s[2] as int - 0x80);
      if c >= 0x800 && Scalar(c) then Some((c, 3)) else None
    else if 0xF0 <= s[0] < 0xF5 && |s| >= 4 && Continuation(s[1]) && Continuation(s[2]) && Continuation(s[3]) then
      var c := (s[0] as int - 0xF0) * 0x4_0000 + (s[1] as int - 0x80) * 0x1000 +
               (s[2] as int - 0x80) * 0x40 + (s[3] as int - 0x80);
      if 0x1_0000 <= c < 0x11_0000 then Some((c, 4)) else None
    else None
  }

  function Utf8Decode(s: Bytes): Option<Text>
    decreases |s|
  {
    if s == [] then Some([]) else
    match DecodeChar(s)
    case None => None
    case Some(first) =>
      match Utf8Decode(s[first.1..])
      case None => None
      case Some(rest) => Some([first.0] + rest)
  }

  lemma DecodeCharOfEncoded(c: CodePoint, tail: Bytes)
    requires Scalar(c)
    ensures DecodeChar(EncodeChar(c) + tail) == Some((c, |EncodeChar(c)|))
  {
    var s := EncodeChar(c) + tail;
    if c < 0x80 {
    } else if c < 0x800 {
      assert s[0] == 0xC0 + c / 0x40 && s[1] == 0x80 + c % 0x40;
    } else if c < 0x1_0000 {
      assert s[0] == 0xE0 + c / 0x1000 && s[1] == 0x80 + c / 0x40 % 0x40 && s[2] == 0x80 + c % 0x40;
      assert c / 0x1000 == c / 0x40 / 0x40;
    } else {
      assert s[0] == 0xF0 + c / 0x4_0000 && s[1] == 0x80 + c / 0x1000 % 0x40;
      assert s[2] == 0x80 + c / 0x40 % 0x40 && s[3] == 0x80 + c % 0x40;
      assert c / 0x1000 == c / 0x40 / 0x40 && c / 0x4_0000 == c / 0x1000 / 0x40;
    }
  }

  /** Decoding undoes encoding. */
  lemma {:induction false} DecodeOfEncoded(t: Text)
    requires forall c | c in t :: Scalar(c)
    ensures Utf8Decode(Utf8Encode(t)) == Some(t)
  {
    if t != [] {
      DecodeCharOfEncoded(t[0], Utf8Encode(t[1..]));
      var e := EncodeChar(t[0]);
      assert (e + Utf8Encode(t[1..]))[|e|..] == Utf8Encode(t[1..]);
      DecodeOfEncoded(t[1..]);
      assert t == [t[0]] + t[1..];
    }
  }

  lemma Sextet(high: nat, low: nat)
    requires low < 0x40
    ensures (high * 0x40 + low) / 0x40 == high && (high * 0x40 + low) % 0x40 == low
  {
  }

  lemma DecodeCharIsStrict(s: Bytes)
    requires s != [] && DecodeChar(s).Some?
    ensures var (c, n) := DecodeChar(s).value; Scalar(c) && EncodeChar(c) == s[..n]
  {
    var (c, n) := DecodeChar(s).value;
    if n == 2 {
      Sextet(s[0] - 0xC0, s[1] - 0x80);
      assert EncodeChar(c) == [s[0], s[1]] == s[..2];
    } else if n == 3 {
      var high: nat := (s[0] as int - 0xE0) * 0x40 + (s[1] - 0x80);
      Sextet(s[0] - 0xE0, s[1] - 0x80);
      Sextet(high, s[2] - 0x80);
      assert c == high * 0x40 + (s[2] - 0x80) && c / 0x1000 == high / 0x40;
      assert EncodeChar(c) == [s[0], s[1], s[2]] == s[..3];
    } else if n == 4 {
      FourIsStrict(s);
    }
  }

  lemma FourIsStrict(s: Bytes)
    requires s != [] && DecodeChar(s).Some? && DecodeChar(s).value.1 == 4
    ensures Scalar(DecodeChar(s).value.0) && EncodeChar(DecodeChar(s).value.0) == s[..4]
  {
    var c := DecodeChar(s).value.0;
    var top: nat := (s[0] as int - 0xF0) * 0x40 + (s[1] - 0x80);
    var high: nat := top * 0x40 + (s[2] - 0x80);
    Sextet(s[0] - 0xF0, s[1] - 0x80);
    Sextet(top, s[2] - 0x80);
    Sextet(high, s[3] - 0x80);
    assert c == high * 0x40 + (s[3] - 0x80);
    assert c / 0x1000 == high / 0x40 && c / 0x4_0000 == top / 0x40;
    assert EncodeChar(c) == [s[0], s[1], s[2], s[3]] == s[..4];
  }

  ghost predicate Encodes(t: Text, s: Bytes) { Utf8Encode(t) == s && forall c | c in t :: Scalar(c) }

  lemma EncodesMore(c: CodePoint, rest: Text, head: Bytes, tail: Bytes)
    requires Scalar(c) && EncodeChar(c) == head && Encodes(rest, tail)
    ensures Encodes([c] + rest, head + tail)
  {
    assert ([c] + rest)[1..] == rest;
  }

  /** Strict decoding accepts nothing but encoded text. */
  lemma {:induction false} DecodeIsStrict(s: Bytes)
    ensures Utf8Decode(s).Some? ==> Encodes(Utf8Decode(s).value, s)
    decreases |s|
  {
    if s != [] && Utf8Decode(s).Some? {
      DecodeCharIsStrict(s);
      var (c, n) := DecodeChar(s).value;
      DecodeIsStrict(s[n..]);
      EncodesMore(c, Utf8Decode(s[n..]).value, s[..n], s[n..]);
      assert s == s[..n] + s[n..];
    }
  }

  lemma {:induction false} DecodeAscii(s: Bytes)
    requires forall b | b in s :: b < 0x80
    ensures Utf8Decode(s) == Some(s)
  {
    if s != [] {
      assert s[0] in s;
      assert forall b | b in s[1..] :: b in s;
      DecodeAscii(s[1..]);
      assert s == [s[0]] + s[1..];
    }
  }

  /** `bytes.decode("utf-8-sig")`: one byte order mark, if present, is dropped. */
  function SigDecode(raw: Bytes): Option<Text>
  {
    Utf8Decode(if BOM <= raw then raw[3..] else raw)
  }

  // ---- Windows-1252 --------------------------------------------------------------------------------

  /** What the bytes 0x80 to 0x9F stand for; 0 marks the five that are undefined. */
  const CP1252_HIGH: seq<CodePoint> :=
    [0x20AC, 0, 0x201A, 0x0192, 0x201E, 0x2026, 0x2020, 0x2021, 0x02C6, 0x2030, 0x0160, 0x2039, 0x0152, 0, 0x017D, 0,
     0, 0x2018, 0x2019, 0x201C, 0x201D, 0x2022, 0x2013, 0x2014, 0x02DC, 0x2122, 0x0161, 0x203A, 0x0153, 0, 0x017E,
     0x0178]

  function Cp1252Char(b: Byte): Option<CodePoint>
  {
    if b < 0x80 || b >= 0xA0 then Some(b)
    else if CP1252_HIGH[b - 0x80] == 0 then None
    else Some(CP1252_HIGH[b - 0x80])
  }

  /** Five bytes stand for nothing, the rest of that range for letters and signs beyond Latin-1. */
  lemma Cp1252Meaning(b: Byte)
    ensures Cp1252Char(b).None? <==> b in {0x81, 0x8D, 0x8F, 0x90, 0x9D}
    ensures b < 0x80 || b >= 0xA0 ==> Cp1252Char(b) == Some(b)
    ensures forall i | 0 <= i < 32 && CP1252_SIGNS[i] != '?' ::
            Cp1252Char(0x80 + i) == Some(CP1252_SIGNS[i] as CodePoint)
  {
  }

  /** The same range as characters, a question mark where there is none. */
  ghost const CP1252_SIGNS: string := "€?‚ƒ„…†‡ˆ‰Š‹Œ?Ž??‘’“”•–—˜™š›œ?žŸ"

  function Cp1252Decode(raw: Bytes): Option<Text>
  {
    if raw == [] then Some([]) else
    match (Cp1252Char(raw[0]), Cp1252Decode(raw[1..]))
    case (Some(c), Some(rest)) => Some([c] + rest)
    case _ => None
  }

  /** The byte that stands for a character. */
  function Cp1252Byte(c: CodePoint): Option<Byte>
  {
    if c < 0x80 || 0xA0 <= c < 0x100 then Some(c) else HighByte(c, 0x80)
  }

  function HighByte(c: CodePoint, b: Byte): Option<Byte>
    requires 0x80 <= b <= 0xA0
    decreases 0xA0 - b
  {
    if b == 0xA0 then None
    else if CP1252_HIGH[b - 0x80] == c && c != 0 then Some(b)
    else HighByte(c, b + 1)
  }

  predicate HighDistinct()
  {
    forall i, j | 0 <= i < j < |CP1252_HIGH| && CP1252_HIGH[i] != 0 :: CP1252_HIGH[i] != CP1252_HIGH[j]
  }

  lemma HighTable()
    ensures |CP1252_HIGH| == 32 && HighDistinct()
    ensures forall i | 0 <= i < 32 :: CP1252_HIGH[i] == 0 || 0x152 <= CP1252_HIGH[i] < 0x2123
  {
  }

  lemma {:induction false} HighByteFinds(b: Byte, from: Byte)
    requires 0x80 <= from <= b < 0xA0 && CP1252_HIGH[b - 0x80] != 0
    ensures HighByte(CP1252_HIGH[b - 0x80], from) == Some(b)
    decreases b - from
  {
    HighTable();
    if from < b { HighByteFinds(b, from + 1); }
  }

  lemma Cp1252Inverse(b: Byte)
    requires Cp1252Char(b).Some?
    ensures Cp1252Byte(Cp1252Char(b).value) == Some(b) && Scalar(Cp1252Char(b).value)
  {
    HighTable();
    if 0x80 <= b < 0xA0 { HighByteFinds(b, 0x80); }
  }

  function Cp1252Encode(t: Text): Option<Bytes>
  {
    if t == [] then Some([]) else
    match (Cp1252Byte(t[0]), Cp1252Encode(t[1..]))
    case (Some(b), Some(rest)) => Some([b] + rest)
    case _ => None
  }

  lemma {:induction false} Cp1252RoundTrip(raw: Bytes)
    requires Cp1252Decode(raw).Some?
    ensures Cp1252Encode(Cp1252Decode(raw).value) == Some(raw)
    ensures forall c | c in Cp1252Decode(raw).value :: Scalar(c)
  {
    if raw != [] {
      Cp1252Inverse(raw[0]);
      Cp1252RoundTrip(raw[1..]);
      var c, rest := Cp1252Char(raw[0]).value, Cp1252Decode(raw[1..]).value;
      assert ([c] + rest)[1..] == rest && raw == [raw[0]] + raw[1..];
    }
  }

  /** Reading a file as Windows-1252 and writing it as UTF-8. */
  function Reencoded(raw: Bytes): Option<Bytes>
  {
    match Cp1252Decode(raw) case None => None case Some(t) => Some(Utf8Encode(t))
  }

  /** The way back. */
  function Original(fixed: Bytes): Option<Bytes>
  {
    match Utf8Decode(fixed) case None => None case Some(t) => Cp1252Encode(t)
  }

  /** Re-encoding loses nothing: the original bytes can be computed from the result. */
  lemma ReencodingIsReversible(raw: Bytes)
    requires Reencoded(raw).Some?
    ensures Original(Reencoded(raw).value) == Some(raw)
  {
    Cp1252RoundTrip(raw);
    DecodeOfEncoded(Cp1252Decode(raw).value);
  }

  // ---- the gate ------------------------------------------------------------------------------------

  /** The corruption table: a raw byte and the character it should have been. */
  function KnownChar(b: Byte): Option<CodePoint>
  {
    if b == 0x91 then Some(0x2018) else if b == 0x92 then Some(0x2019)
    else if b == 0x93 then Some(0x201C) else if b == 0x94 then Some(0x201D)
    else if b == 0x96 then Some(0x2013) else if b == 0x97 then Some(0x2014)
    else if b == 0xA7 then Some(0xA7) else None
  }

  function Replacement(b: Byte): Bytes
  {
    match KnownChar(b) case None => [b] case Some(c) => EncodeChar(c)
  }

  /** `raw` with every catalogued byte replaced and every other byte kept. */
  function Rewritten(raw: Bytes): Bytes
  {
    if raw == [] then [] else Replacement(raw[0]) + Rewritten(raw[1..])
  }

  /** Whether the bytes of `candidate` from `j` on begin with the replacement of `b`. */
  predicate Matches(candidate: Bytes, j: nat, replacement: Bytes)
  {
    j + |replacement| <= |candidate| && candidate[j..j + |replacement|] == replacement
  }

  /** Python's slice comparison `candidate[j:j + len(r)] == r`; slices stop at the end. */
  method SliceEquals(candidate: Bytes, j: nat, r: Bytes) returns (same: bool)
    requires j <= |candidate| && r != []
    ensures same <==> Matches(candidate, j, r)
  {
    var end := if j + |r| <= |candidate| then j + |r| else |candidate|;
    same := candidate[j..end] == r;
  }

  lemma MatchesOne(candidate: Bytes, j: nat, b: Byte)
    requires j <= |candidate|
    ensures Matches(candidate, j, [b]) <==> j < |candidate| && candidate[j] == b
  {
  }

  /** What is still to be compared decides the outcome. */
  ghost predicate Aligned(raw: Bytes, candidate: Bytes, i: nat, j: nat)
  {
    i <= |raw| && j <= |candidate| && (candidate == Rewritten(raw) <==> candidate[j..] == Rewritten(raw[i..]))
  }

  lemma GateStep(raw: Bytes, candidate: Bytes, i: nat, j: nat)
    requires Aligned(raw, candidate, i, j) && i < |raw|
    ensures Matches(candidate, j, Replacement(raw[i])) ==> Aligned(raw, candidate, i + 1, j + |Replacement(raw[i])|)
    ensures !Matches(candidate, j, Replacement(raw[i])) ==> candidate != Rewritten(raw)
  {
    assert raw[i..][1..] == raw[i + 1..];
    SplitAt(candidate, j, Replacement(raw[i]), Rewritten(raw[i + 1..]));
  }

  lemma SplitAt(c: Bytes, j: nat, head: Bytes, tail: Bytes)
    requires j <= |c|
    ensures c[j..] == head + tail <==> Matches(c, j, head) && c[j + |head|..] == tail
  {
    if c[j..] == head + tail {
      assert c[j..j + |head|] == c[j..][..|head|] && c[j + |head|..] == c[j..][|head|..];
    }
    if Matches(c, j, head) && c[j + |head|..] == tail { assert c[j..] == c[j..j + |head|] + c[j + |head|..]; }
  }

  /** `_only_known_corruption_bytes_differ`: two cursors, advanced by one byte or by one replacement. */
  method OnlyKnownCorruptionBytesDiffer(raw: Bytes, candidate: Bytes) returns (ok: bool)
    ensures ok <==> candidate == Rewritten(raw)
  {
    var i, j := 0, 0;
    while i < |raw|
      invariant 0 <= i && 0 <= j && Aligned(raw, candidate, i, j)
    {
      GateStep(raw, candidate, i, j);
      var replacement := Replacement(raw[i]);
      if KnownChar(raw[i]).Some? {
        var same := SliceEquals(candidate, j, replacement);
        if !same { return false; }
        i, j := i + 1, j + |replacement|;
        continue;
      }
      MatchesOne(candidate, j, raw[i]);
      if j >= |candidate| || raw[i] != candidate[j] { return false; }
      i, j := i + 1, j + 1;
    }
    GateEnd(raw, candidate, j);
    return j == |candidate|;
  }

  lemma GateEnd(raw: Bytes, candidate: Bytes, j: nat)
    requires Aligned(raw, candidate, |raw|, j)
    ensures candidate == Rewritten(raw) <==> j == |candidate|
  {
    assert raw[|raw|..] == [] && candidate[|candidate|..] == [];
  }

  /** The byte is ASCII, a curly quote, a dash or the section sign. */
  ghost predicate AsciiOrKnown(b: Byte) { b < 0x80 || b in {0x91, 0x92, 0x93, 0x94, 0x96, 0x97, 0xA7} }

  /** The UTF-8 bytes of the characters in the corruption map. */
  ghost const CATALOGUE: map<Byte, Bytes> :=
    map[0x91 := [0xE2, 0x80, 0x98], 0x92 := [0xE2, 0x80, 0x99], 0x93 := [0xE2, 0x80, 0x9C], 0x94 := [0xE2, 0x80, 0x9D],
        0x96 := [0xE2, 0x80, 0x93], 0x97 := [0xE2, 0x80, 0x94], 0xA7 := [0xC2, 0xA7]]

  lemma ReplacementMeaning(b: Byte)
    ensures Replacement(b) == if b in CATALOGUE then CATALOGUE[b] else [b]
  {
  }

  /** Rewriting works byte by byte. */
  lemma {:induction false} RewrittenParts(a: Bytes, b: Bytes)
    ensures Rewritten(a + b) == Rewritten(a) + Rewritten(b)
  {
    if a == [] {
      assert a + b == b;
    } else {
      assert (a + b)[1..] == a[1..] + b;
      RewrittenParts(a[1..], b);
    }
  }

  lemma RewrittenMeaning(before: Bytes, b: Byte, after: Bytes)
    ensures Rewritten([]) == []
    ensures Rewritten(before + [b] + after) ==
            Rewritten(before) + (if b in CATALOGUE then CATALOGUE[b] else [b]) + Rewritten(after)
  {
    RewrittenParts(before + [b], after);
    RewrittenParts(before, [b]);
    ReplacementMeaning(b);
    assert Rewritten([b]) == Replacement(b);
  }

  lemma KnownIsCp1252(b: Byte)
    ensures KnownChar(b).Some? ==> Cp1252Char(b) == KnownChar(b)
    ensures Cp1252Char(b).Some? ==> |Replacement(b)| <= |EncodeChar(Cp1252Char(b).value)|
    ensures Cp1252Char(b).Some? && |Replacement(b)| == |EncodeChar(Cp1252Char(b).value)| ==> AsciiOrKnown(b)
    ensures AsciiOrKnown(b) ==> Cp1252Char(b).Some? && Replacement(b) == EncodeChar(Cp1252Char(b).value)
  {
    HighTable();
  }

  /** The rewritten file is never longer than the re-encoded one, and equally long only if every byte is ASCII or
      known. */
  lemma {:induction false} LengthTells(raw: Bytes)
    requires Cp1252Decode(raw).Some?
    ensures |Rewritten(raw)| <= |Utf8Encode(Cp1252Decode(raw).value)|
    ensures |Rewritten(raw)| == |Utf8Encode(Cp1252Decode(raw).value)| ==> forall b | b in raw :: AsciiOrKnown(b)
  {
    if raw != [] {
      KnownIsCp1252(raw[0]);
      LengthTells(raw[1..]);
      var c, rest := Cp1252Char(raw[0]).value, Cp1252Decode(raw[1..]).value;
      assert ([c] + rest)[1..] == rest;
      assert forall b | b in raw :: b == raw[0] || b in raw[1..];
    }
  }

  lemma {:induction false} KnownBytesAgree(raw: Bytes)
    requires forall b | b in raw :: AsciiOrKnown(b)
    ensures Reencoded(raw) == Some(Rewritten(raw))
  {
    if raw != [] {
      assert raw[0] in raw && forall b | b in raw[1..] :: b in raw;
      KnownIsCp1252(raw[0]);
      KnownBytesAgree(raw[1..]);
      var c, rest := Cp1252Char(raw[0]).value, Cp1252Decode(raw[1..]).value;
      assert ([c] + rest)[1..] == rest;
    }
  }

  /** On the re-encoded file the gate accepts exactly when every byte is ASCII or catalogued. */
  lemma GateCharacterised(raw: Bytes)
    requires Reencoded(raw).Some?
    ensures Reencoded(raw).value == Rewritten(raw) <==> forall b | b in raw :: AsciiOrKnown(b)
  {
    LengthTells(raw);
    if forall b | b in raw :: AsciiOrKnown(b) { KnownBytesAgree(raw); }
  }
}
