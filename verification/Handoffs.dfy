/** Handoff files as bytes, JSON documents, and the per-file repairs of the bookkeeping tool. */
module Handoffs {
  import opened Encoding
  import opened Registry

  /** A parsed JSON value. A number with an integral value is its value, any other number its text; NaN and the
      infinities are not values here. */
  datatype Json =
    Null | Bool(b: bool) | Num(n: int) | Fraction(text: string) | Str(s: string) | Arr(items: seq<Json>) |
    Obj(fields: Fields)
  type Fields = map<string, Json>

  /** Python's JSON library on text, and the order in which it lists the keys of an object. */
  datatype Codec = Codec(loads: Text -> Option<Json>, dumps: Json -> Text, keys: Fields -> seq<string>)
  {
    /** Dumped text is ASCII and loads back; no JSON text starts with a byte order mark or with the letter that the
        first byte of one stands for in Windows-1252. */
    ghost predicate Faithful()
    {
      && (forall v :: loads(dumps(v)) == Some(v))
      && (forall v, c | c in dumps(v) :: c < 0x80)
      && (forall t | t != [] && (t[0] == BOM_CHAR || t[0] == 0xEF) :: loads(t) == None)
    }
  }

  function TextOf(s: string): (t: Text)
    ensures |t| == |s|
  {
    seq(|s|, i requires 0 <= i < |s| => s[i] as int)
  }

  /** `json.loads(raw.decode("utf-8-sig"))`, None for a decoding or a parse error. */
  function Parse(codec: Codec, raw: Bytes): Option<Json>
  {
    match SigDecode(raw) case None => None case Some(t) => codec.loads(t)
  }

  /** `try_parse`: only objects count. */
  function TryParse(codec: Codec, raw: Bytes): Option<Fields>
  {
    match Parse(codec, raw) { case Some(Obj(o)) => Some(o) case _ => None }
  }

  /** `json.dumps(v, indent=2).encode("utf-8")`. */
  function Dump(codec: Codec, v: Json): Bytes { Utf8Encode(codec.dumps(v)) }

  function Field(o: Fields, k: string): Option<Json> { if k in o then Some(o[k]) else None }

  /** `self_verifying_write` as seen from the path: the new bytes if they parse and pass the check, else the old. */
  function Written(codec: Codec, old_: Bytes, new_: Bytes, check: (Json, Bytes) -> bool): Bytes
  {
    match Parse(codec, new_) case Some(v) => (if check(v, new_) then new_ else old_) case None => old_
  }

  // ---- the four per-file repairs ---------------------------------------------------------------------

  /** H008: strip a byte order mark. */
  function FixBom(codec: Codec, raw: Bytes): Bytes
  {
    if BOM <= raw then Written(codec, raw, raw[3..], (_, b) => b == raw[3..] && !(BOM <= b)) else raw
  }

  /** H001, encoding subset: re-encode, if the result parses and only catalogued bytes change. */
  function FixEncoding(codec: Codec, raw: Bytes): Bytes
  {
    if Parse(codec, raw).Some? then raw else
    match Reencoded(raw)
    case None => raw
    case Some(c) =>
      if Parse(codec, c).None? || c != Rewritten(raw) then raw
      else Written(codec, raw, c, (_, b) => Parse(codec, b).Some? && b == Rewritten(raw))
  }

  predicate ResultIsObject(v: Json)
  {
    v.Obj? && match Field(v.fields, "result") { case Some(Obj(_)) => true case _ => false }
  }

  /** H002: unwrap a `result` that is an object stored as a string. */
  function FixResult(codec: Codec, raw: Bytes): Bytes
  {
    match TryParse(codec, raw)
    case Some(o) => (
      match Field(o, "result")
      case Some(Str(s)) => (
        match codec.loads(TextOf(s))
        case Some(Obj(inner)) =>
          Written(codec, raw, Dump(codec, Obj(o["result" := Obj(inner)])),
                  (v: Json, _) => ResultIsObject(v))
        case _ => raw)
      case _ => raw)
    case None => raw
  }

  /** The two unambiguous renames of `result.status`. */
  function Rename(s: string): Option<string>
  {
    if s == "FAILED" then Some("FAIL") else if s == "PARTIAL_PASS" then Some("PARTIAL") else None
  }

  predicate Unhashable(v: Json) { v.Arr? || v.Obj? }

  /** H006: rename `result.status`. None stands for the TypeError raised when that status is a list or an object. */
  function FixStatus(codec: Codec, raw: Bytes): Option<Bytes>
  {
    match TryParse(codec, raw)
    case Some(o) => (
      match Field(o, "result")
      case Some(Obj(r)) => (
        match Field(r, "status")
        case Some(st) =>
          if Unhashable(st) then None
          else if st.Str? && Rename(st.s).Some? then
            var fixed := o["result" := Obj(r["status" := Str(Rename(st.s).value)])];
            Some(Written(codec, raw, Dump(codec, Obj(fixed)), (v: Json, _) => StatusRepaired(v, Field(o, "status"))))
          else Some(raw)
        case None => Some(raw))
      case _ => Some(raw))
    case None => Some(raw)
  }

  /** The H006 post-check: `result.status` is no longer renamable, the top-level status is untouched. */
  predicate StatusRepaired(v: Json, top: Option<Json>)
  {
    && v.Obj?
    && Field(v.fields, "status") == top
    && match Field(v.fields, "result") {
         case Some(Obj(r)) =>
           Field(r, "status") != Some(Str("FAILED")) && Field(r, "status") != Some(Str("PARTIAL_PASS"))
         case _ => false
       }
  }

  // ---- what a settled file is --------------------------------------------------------------------------

  /** None of the first three repairs changes `raw`. */
  ghost predicate Quiet(codec: Codec, raw: Bytes)
  {
    FixBom(codec, raw) == raw && FixEncoding(codec, raw) == raw && FixResult(codec, raw) == raw
  }

  lemma EncodeAscii(t: Text)
    requires forall c | c in t :: c < 0x80
    ensures Utf8Encode(t) == t
  {
    if t != [] {
      assert t[0] in t && forall c | c in t[1..] :: c in t;
      EncodeAscii(t[1..]);
    }
  }

  /** What the tool writes is ASCII, has no byte order mark, and reads back as the value written. */
  lemma DumpReadsBack(codec: Codec, v: Json)
    requires codec.Faithful()
    ensures Parse(codec, Dump(codec, v)) == Some(v) && !(BOM <= Dump(codec, v))
  {
    var t := codec.dumps(v);
    EncodeAscii(t);
    assert forall i | 0 <= i < |t| :: t[i] in t;
    DecodeAscii(t);
  }

  lemma BomDecodes(rest: Bytes)
    ensures Utf8Decode(BOM + rest) ==
            match Utf8Decode(rest) { case None => None case Some(t) => Some([BOM_CHAR] + t) }
  {
    var s := BOM + rest;
    assert s[0] == 0xEF && s[1] == 0xBB && s[2] == 0xBF && s[3..] == rest;
    assert DecodeChar(s) == Some((BOM_CHAR, 3));
  }

  /** A file whose byte order mark cannot be stripped does not parse, in either encoding. */
  lemma RefusedBom(codec: Codec, raw: Bytes)
    requires codec.Faithful() && BOM <= raw && FixBom(codec, raw) == raw
    ensures Parse(codec, raw) == None
    ensures Reencoded(raw).Some? ==> Parse(codec, Reencoded(raw).value) == None
  {
    var rest := raw[3..];
    assert raw == BOM + rest;
    if BOM <= rest {
      assert rest == BOM + rest[3..];
      BomDecodes(rest[3..]);
    }
    if Cp1252Decode(raw).Some? {
      var t := Cp1252Decode(raw).value;
      assert t[0] == 0xEF;
      Cp1252RoundTrip(raw);
      DecodeOfEncoded(t);
      assert Utf8Encode(t)[0] == EncodeChar(t[0])[0] == 0xC3;
    }
  }

  /** A re-encoded file has no byte order mark: no Windows-1252 byte stands for that character. */
  lemma ReencodedHasNoBom(raw: Bytes)
    requires Reencoded(raw).Some?
    ensures !(BOM <= Reencoded(raw).value)
  {
    var t := Cp1252Decode(raw).value;
    var c := Utf8Encode(t);
    if BOM <= c {
      Cp1252RoundTrip(raw);
      DecodeOfEncoded(t);
      assert c == BOM + c[3..];
      BomDecodes(c[3..]);
      assert t[0] == BOM_CHAR;
      HighTable();
    }
  }

  /** The first three repairs, in the order the tool runs them. */
  function FirstThree(codec: Codec, raw: Bytes): Bytes
  {
    FixResult(codec, FixEncoding(codec, FixBom(codec, raw)))
  }

  lemma AfterBom(codec: Codec, raw: Bytes)
    requires codec.Faithful()
    ensures var b := FixBom(codec, raw); FixBom(codec, b) == b
  {
  }

  lemma AfterEncoding(codec: Codec, raw: Bytes)
    requires codec.Faithful() && FixBom(codec, raw) == raw
    ensures var b := FixEncoding(codec, raw); FixBom(codec, b) == b && FixEncoding(codec, b) == b
  {
    var b := FixEncoding(codec, raw);
    if b != raw { ReencodedHasNoBom(raw); }
  }

  /** The tool's own output is left alone by the byte-level repairs. */
  lemma DumpedIsClean(codec: Codec, v: Json)
    requires codec.Faithful()
    ensures FixBom(codec, Dump(codec, v)) == Dump(codec, v) && FixEncoding(codec, Dump(codec, v)) == Dump(codec, v)
  {
    DumpReadsBack(codec, v);
  }

  lemma AfterResult(codec: Codec, raw: Bytes)
    requires codec.Faithful() && FixBom(codec, raw) == raw && FixEncoding(codec, raw) == raw
    ensures Quiet(codec, FixResult(codec, raw))
  {
    var b := FixResult(codec, raw);
    if b != raw {
      var o := TryParse(codec, raw).value;
      var inner := codec.loads(TextOf(o["result"].s)).value;
      var v := Obj(o["result" := inner]);
      DumpReadsBack(codec, v);
      DumpedIsClean(codec, v);
      assert b == Dump(codec, v);
    }
  }

  lemma FirstThreeSettle(codec: Codec, raw: Bytes)
    requires codec.Faithful()
    ensures Quiet(codec, FirstThree(codec, raw))
  {
    AfterBom(codec, raw);
    AfterEncoding(codec, FixBom(codec, raw));
    AfterResult(codec, FixEncoding(codec, FixBom(codec, raw)));
  }

  /** A file is settled once all four repairs have run, whether they changed it, refused it or had nothing to do. */
  lemma AllFourSettle(codec: Codec, raw: Bytes)
    requires codec.Faithful() && Quiet(codec, raw) && FixStatus(codec, raw).Some?
    ensures var b := FixStatus(codec, raw).value; Quiet(codec, b) && FixStatus(codec, b) == Some(b)
  {
    var b := FixStatus(codec, raw).value;
    if b != raw {
      var o := TryParse(codec, raw).value;
      var r := o["result"].fields;
      var st := Rename(r["status"].s).value;
      var v := Obj(o["result" := Obj(r["status" := Str(st)])]);
      DumpReadsBack(codec, v);
      assert b == Dump(codec, v);
      assert Rename(st) == None;
    }
  }

  /** A file whose byte order mark cannot be stripped passes through the whole run untouched. */
  lemma RefusedBomStays(codec: Codec, raw: Bytes)
    requires codec.Faithful() && BOM <= raw && FixBom(codec, raw) == raw
    ensures FirstThree(codec, raw) == raw && FixStatus(codec, raw) == Some(raw)
  {
    RefusedBom(codec, raw);
  }

  // ---- when the repairs act, and what they then write ---------------------------------------------------

  /** What is parsed is strict UTF-8 after at most one byte order mark. */
  lemma ParseMeaning(codec: Codec, raw: Bytes, t: Text)
    requires forall c | c in t :: Scalar(c)
    ensures raw == [0xEF, 0xBB, 0xBF] + Utf8Encode(t) ==> Parse(codec, raw) == codec.loads(t)
    ensures raw == Utf8Encode(t) && !([0xEF, 0xBB, 0xBF] <= raw) ==> Parse(codec, raw) == codec.loads(t)
  {
    DecodeOfEncoded(t);
  }

  lemma ParsedIsUtf8(codec: Codec, raw: Bytes)
    ensures Parse(codec, raw).Some? ==>
              exists t :: Parse(codec, raw) == codec.loads(t) && (forall c | c in t :: Scalar(c)) &&
                          (raw == [0xEF, 0xBB, 0xBF] + Utf8Encode(t) || raw == Utf8Encode(t))
  {
    if Parse(codec, raw).Some? {
      var rest := if BOM <= raw then raw[3..] else raw;
      DecodeIsStrict(rest);
      assert BOM <= raw ==> raw == [0xEF, 0xBB, 0xBF] + raw[3..];
    }
  }

  /** The mark is stripped exactly when what follows parses and does not start with another one. */
  lemma BomRepairIff(codec: Codec, raw: Bytes)
    ensures FixBom(codec, raw) != raw <==>
              exists rest :: raw == [0xEF, 0xBB, 0xBF] + rest && Parse(codec, rest).Some? &&
                             !([0xEF, 0xBB, 0xBF] <= rest)
    ensures FixBom(codec, raw) != raw ==> raw == [0xEF, 0xBB, 0xBF] + FixBom(codec, raw)
  {
    if BOM <= raw {
      assert raw == [0xEF, 0xBB, 0xBF] + raw[3..];
      forall rest | raw == [0xEF, 0xBB, 0xBF] + rest ensures rest == raw[3..] {}
    }
  }

  /** The handoff is an object whose result is a text that reads as the object `inner`. */
  ghost predicate StringifiedResult(codec: Codec, v: Option<Json>, inner: Fields)
  {
    && v.Some? && v.value.Obj? && "result" in v.value.fields && v.value.fields["result"].Str?
    && codec.loads(TextOf(v.value.fields["result"].s)) == Some(Obj(inner))
  }

  /** A result is unwrapped exactly when it is a text that reads as an object, and the written file reads back with that
      field replaced and no other. */
  lemma ResultRepairIff(codec: Codec, raw: Bytes)
    requires codec.Faithful()
    ensures FixResult(codec, raw) != raw <==> exists inner :: StringifiedResult(codec, Parse(codec, raw), inner)
    ensures forall inner | StringifiedResult(codec, Parse(codec, raw), inner) ::
              Parse(codec, FixResult(codec, raw)) ==
                Some(Obj(Parse(codec, raw).value.fields["result" := Obj(inner)]))
  {
    forall inner | StringifiedResult(codec, Parse(codec, raw), inner)
      ensures FixResult(codec, raw) != raw
      ensures Parse(codec, FixResult(codec, raw)) == Some(Obj(Parse(codec, raw).value.fields["result" := Obj(inner)]))
    {
      DumpReadsBack(codec, Obj(Parse(codec, raw).value.fields["result" := Obj(inner)]));
    }
    if FixResult(codec, raw) != raw {
      var inner := codec.loads(TextOf(TryParse(codec, raw).value["result"].s)).value.fields;
      assert StringifiedResult(codec, Parse(codec, raw), inner);
    }
  }

  /** The value of `result.status`, if the handoff and its result are objects. */
  ghost function ResultState(v: Option<Json>): Option<Json>
  {
    if v.Some? && v.value.Obj? && "result" in v.value.fields && v.value.fields["result"].Obj? &&
       "status" in v.value.fields["result"].fields
    then Some(v.value.fields["result"].fields["status"])
    else None
  }

  /** The handoff with another `result.status`. */
  ghost function WithResultState(v: Json, status: string): Json
    requires ResultState(Some(v)).Some?
  {
    Obj(v.fields["result" := Obj(v.fields["result"].fields["status" := Str(status)])])
  }

  /** The status pass raises exactly on a list or an object, renames exactly FAILED and PARTIAL_PASS, and changes
      nothing else in the handoff. */
  lemma StatusRepairIff(codec: Codec, raw: Bytes)
    requires codec.Faithful()
    ensures var st := ResultState(Parse(codec, raw));
            var r := FixStatus(codec, raw);
            && (r.None? <==> st.Some? && (st.value.Arr? || st.value.Obj?))
            && (r.Some? ==> (r.value != raw <==> st in {Some(Str("FAILED")), Some(Str("PARTIAL_PASS"))}))
            && (st == Some(Str("FAILED")) ==>
                  Parse(codec, r.value) == Some(WithResultState(Parse(codec, raw).value, "FAIL")))
            && (st == Some(Str("PARTIAL_PASS")) ==>
                  Parse(codec, r.value) == Some(WithResultState(Parse(codec, raw).value, "PARTIAL")))
  {
    var v := Parse(codec, raw);
    var st := ResultState(v);
    if st.Some? && st.value.Str? && Rename(st.value.s).Some? {
      DumpReadsBack(codec, WithResultState(v.value, Rename(st.value.s).value));
    }
  }

  /** The repairs that can be refused by the write's own checks never are, except for the byte order mark. */
  lemma WritesSucceed(codec: Codec, raw: Bytes)
    requires codec.Faithful()
    ensures FixEncoding(codec, raw) != raw <==>
              Parse(codec, raw).None? && Reencoded(raw).Some? && Parse(codec, Reencoded(raw).value).Some? &&
              Reencoded(raw).value != raw && forall b | b in raw :: AsciiOrKnown(b)
    ensures FixEncoding(codec, raw) != raw ==> FixEncoding(codec, raw) == Reencoded(raw).value
  {
    if Reencoded(raw).Some? { GateCharacterised(raw); }
  }
}
