/** The bookkeeping repair as a whole: passes over the corpus in fixed order, then the registry; and what running it
    twice does. */
module Repair {
  import opened Backfill
  import opened Encoding
  import opened Handoffs
  import opened Orders
  import opened Registry

  // ---- the registry ------------------------------------------------------------------------------------

  /** What iterating over a JSON value yields; None where Python raises. */
  function Iterated(codec: Codec, v: Json): Option<seq<Json>>
  {
    match v
    case Arr(items) => Some(items)
    case Str(s) => Some(seq(|s|, i requires 0 <= i < |s| => Str([s[i]])))
    case Obj(o) => var ks := codec.keys(o); Some(seq(|ks|, i requires 0 <= i < |ks| => Str(ks[i])))
    case _ => None
  }

  function OldEntries(codec: Codec, doc: Fields): Option<seq<Json>>
  {
    if "entries" in doc then Iterated(codec, doc["entries"]) else Some([])
  }

  predicate RegisteredEntry(e: Json) { e.Obj? && HasId(e.fields) }

  /** No registered id makes hashing fail. */
  ghost predicate EntriesOk(items: seq<Json>, n: nat)
    requires n <= |items|
  {
    forall i: nat | i < n :: !(RegisteredEntry(items[i]) && BadId(items[i].fields))
  }

  ghost function RegisteredIds(items: seq<Json>, n: nat): set<Json>
    requires n <= |items|
  {
    if n == 0 then {} else
    RegisteredIds(items, n - 1) + if RegisteredEntry(items[n - 1]) then {IdKey(items[n - 1].fields)} else {}
  }

  /** The set comprehension over the registered entries. */
  method CollectRegistered(items: seq<Json>) returns (r: Option<set<Json>>)
    ensures r.None? <==> !EntriesOk(items, |items|)
    ensures r.Some? ==> r.value == RegisteredIds(items, |items|)
  {
    var ids: set<Json> := {};
    for i := 0 to |items|
      invariant EntriesOk(items, i) && ids == RegisteredIds(items, i)
    {
      if RegisteredEntry(items[i]) {
        if BadId(items[i].fields) { return None; }
        ids := ids + {IdKey(items[i].fields)};
      }
    }
    return Some(ids);
  }

  function Entries(new_: seq<Scan>): (r: seq<Json>)
    requires forall k | 0 <= k < |new_| :: Complete(new_[k].doc)
    ensures |r| == |new_|
  {
    seq(|new_|, k requires 0 <= k < |new_| => Obj(Entry(new_[k])))
  }

  /** The registry document after the merge. */
  function Merged(doc: Fields, items: seq<Json>, added: seq<Json>, now: string): Fields
  {
    var d := doc["entries" := Arr(items + added)];
    if added != [] then d["last_updated" := Str(now)] else d
  }

  /** The post-check of the registry write. */
  predicate RegistryCheck(codec: Codec, v: Json, items: seq<Json>, added: nat)
  {
    v.Obj? && match OldEntries(codec, v.fields) {
      case Some(all) => |all| == |items| + added && forall e | e in items :: e in all
      case None => false
    }
  }

  function WriteRegistry(codec: Codec, raw: Bytes, doc: Fields, items: seq<Json>, added: seq<Json>, now: string): Bytes
  {
    Written(codec, raw, Dump(codec, Obj(Merged(doc, items, added, now))),
            (w: Json, _) => RegistryCheck(codec, w, items, |added|))
  }

  /** What H010 leaves in the registry file, and whether it raises. */
  ghost function NewRegistry(codec: Codec, registry: Option<Bytes>, scans: seq<Scan>, now: string)
    : (Option<Bytes>, bool)
  {
    if registry.None? then (registry, false) else
    match Parse(codec, registry.value)
    case None => (registry, false)
    case Some(v) =>
      if !Mergeable(codec, v, scans) then (registry, true) else
      var items := OldEntries(codec, v.fields).value;
      var added := Entries(AcceptedList(scans, RegisteredIds(items, |items|), |scans|));
      (Some(WriteRegistry(codec, registry.value, v.fields, items, added, now)), false)
  }

  /** The merge raises nothing: the registry is an object whose entries can be iterated, and all ids can be hashed. */
  ghost predicate Mergeable(codec: Codec, v: Json, scans: seq<Scan>)
  {
    && v.Obj? && OldEntries(codec, v.fields).Some?
    && EntriesOk(OldEntries(codec, v.fields).value, |OldEntries(codec, v.fields).value|)
    && !Raises(scans)
  }

  lemma EntriesAreListed(codec: Codec, doc: Fields, items: seq<Json>, added: seq<Json>, now: string)
    ensures OldEntries(codec, Merged(doc, items, added, now)) == Some(items + added)
    ensures RegistryCheck(codec, Obj(Merged(doc, items, added, now)), items, |added|)
  {
    assert forall e | e in items :: e in items + added;
  }

  lemma RegistryWriteSucceeds(codec: Codec, raw: Bytes, doc: Fields, items: seq<Json>, added: seq<Json>, now: string)
    requires codec.Faithful()
    ensures WriteRegistry(codec, raw, doc, items, added, now) == Dump(codec, Obj(Merged(doc, items, added, now)))
    ensures Parse(codec, WriteRegistry(codec, raw, doc, items, added, now)) == Some(Obj(Merged(doc, items, added, now)))
  {
    DumpReadsBack(codec, Obj(Merged(doc, items, added, now)));
    EntriesAreListed(codec, doc, items, added, now);
  }

  /** What the first merge adds. */
  ghost function Added(scans: seq<Scan>, items: seq<Json>): seq<Json>
  {
    Entries(AcceptedList(scans, RegisteredIds(items, |items|), |scans|))
  }

  // ---- what is promised, in terms of the handoffs and the registry ------------------------------------------

  /** An entry of the registry has the id. */
  ghost predicate Registers(items: seq<Json>, id: Json)
  {
    exists e :: e in items && e.Obj? && "handoff_id" in e.fields && PythonTrue(e.fields["handoff_id"]) &&
                EqualIds(e.fields["handoff_id"], id)
  }

  /** The handoff has all seven fields, and its id is new: no entry and no other handoff has it. Falsy ids do not
      count as registered, but only a single one is taken. */
  ghost predicate Addable(scans: seq<Scan>, items: seq<Json>, i: nat)
  {
    && i < |scans| && SevenFields(scans[i].doc) && "handoff_id" in scans[i].doc
    && var id := scans[i].doc["handoff_id"];
       if PythonTrue(id) then
         !Registers(items, id) &&
         forall j | 0 <= j < |scans| && j != i && "handoff_id" in scans[j].doc ::
           !EqualIds(scans[j].doc["handoff_id"], id)
       else
         forall j | 0 <= j < |scans| && j != i && SevenFields(scans[j].doc) && "handoff_id" in scans[j].doc ::
           PythonTrue(scans[j].doc["handoff_id"])
  }

  /** Those handoffs, in scan order. */
  ghost function AddableIndices(scans: seq<Scan>, items: seq<Json>): seq<nat>
  {
    Marked(Marks(scans, items), |scans|)
  }

  ghost function Marks(scans: seq<Scan>, items: seq<Json>): (r: seq<bool>)
    ensures |r| == |scans|
  {
    seq(|scans|, i requires 0 <= i < |scans| => Addable(scans, items, i))
  }

  /** The positions below `m` that are marked. */
  ghost function Marked(marks: seq<bool>, m: nat): seq<nat>
    requires m <= |marks|
  {
    if m == 0 then [] else Marked(marks, m - 1) + if marks[m - 1] then [m - 1] else []
  }

  lemma {:induction false} MarkedMeaning(marks: seq<bool>, m: nat)
    requires m <= |marks|
    ensures Increasing(Marked(marks, m)) && forall i: nat :: i in Marked(marks, m) <==> i < m && marks[i]
  {
    if m > 0 {
      MarkedMeaning(marks, m - 1);
      var before := Marked(marks, m - 1);
      forall a | 0 <= a < |before| ensures before[a] < m - 1 { assert before[a] in before; }
    }
  }

  lemma AddableIndicesMeaning(scans: seq<Scan>, items: seq<Json>)
    ensures forall i: nat :: i in AddableIndices(scans, items) <==> i < |scans| && Addable(scans, items, i)
    ensures Increasing(AddableIndices(scans, items))
  {
    MarkedMeaning(Marks(scans, items), |scans|);
  }

  lemma {:induction false} RegisteredMeaning(items: seq<Json>, n: nat, id: Json)
    requires n <= |items|
    ensures Key(id) in RegisteredIds(items, n) <==> Registers(items[..n], id)
  {
    if n > 0 {
      RegisteredMeaning(items, n - 1, id);
      assert items[..n] == items[..n - 1] + [items[n - 1]];
      var e := items[n - 1];
      if e.Obj? && "handoff_id" in e.fields {
        TruthMeaning(e.fields["handoff_id"]);
        KeyMeaning(e.fields["handoff_id"], id);
      }
    }
  }

  lemma {:induction false} FalsyCountMeaning(scans: seq<Scan>, m: nat)
    requires m <= |scans|
    ensures FalsyCount(scans, m) == 0 <==> forall j | 0 <= j < m :: !FalsyId(scans[j].doc)
    ensures FalsyCount(scans, m) == 1 <==> exists i :: 0 <= i < m && OnlyFalsy(scans, m, i)
  {
    if m > 0 {
      FalsyCountMeaning(scans, m - 1);
      if i :| 0 <= i < m && OnlyFalsy(scans, m, i) { assert i < m - 1 ==> OnlyFalsy(scans, m - 1, i); }
      var n := m - 1;
      if i :| 0 <= i < n && OnlyFalsy(scans, n, i) {
        assert !FalsyId(scans[m - 1].doc) ==> OnlyFalsy(scans, m, i);
      }
      assert FalsyCount(scans, m - 1) == 0 && FalsyId(scans[m - 1].doc) ==> OnlyFalsy(scans, m, m - 1);
    }
  }

  ghost predicate OnlyFalsy(scans: seq<Scan>, m: nat, i: int)
    requires m <= |scans|
  {
    0 <= i < m && FalsyId(scans[i].doc) && forall j | 0 <= j < m && j != i :: !FalsyId(scans[j].doc)
  }

  /** What the tool accepts is what is promised. */
  lemma AcceptedMeaning(scans: seq<Scan>, items: seq<Json>, i: nat)
    requires i < |scans|
    ensures Accepted(scans, RegisteredIds(items, |items|), i) <==> Addable(scans, items, i)
  {
    forall j | 0 <= j < |scans| ensures Complete(scans[j].doc) <==> SevenFields(scans[j].doc) {
      CompleteMeaning(scans[j].doc);
    }
    if SevenFields(scans[i].doc) {
      CompleteHasField(scans[i].doc, REQUIRED[0]);
      var id := scans[i].doc["handoff_id"];
      TruthMeaning(id);
      if PythonTrue(id) { ProperIdMeaning(scans, items, i); } else { FalsyIdMeaning(scans, items, i); }
    }
  }

  lemma ProperIdMeaning(scans: seq<Scan>, items: seq<Json>, i: nat)
    requires i < |scans| && Complete(scans[i].doc) && SevenFields(scans[i].doc) && HasId(scans[i].doc)
    requires PythonTrue(scans[i].doc["handoff_id"])
    ensures Accepted(scans, RegisteredIds(items, |items|), i) <==> Addable(scans, items, i)
  {
    var id := scans[i].doc["handoff_id"];
    RegisteredMeaning(items, |items|, id);
    assert items[..|items|] == items;
    forall j: nat | j < |scans|
      ensures SameId(scans, i, j) <==>
              "handoff_id" in scans[j].doc && EqualIds(scans[j].doc["handoff_id"], id)
    {
      if "handoff_id" in scans[j].doc {
        KeyMeaning(scans[j].doc["handoff_id"], id);
        TruthMeaning(scans[j].doc["handoff_id"]);
      }
    }
  }

  lemma FalsyIdMeaning(scans: seq<Scan>, items: seq<Json>, i: nat)
    requires i < |scans| && Complete(scans[i].doc) && SevenFields(scans[i].doc) && !HasId(scans[i].doc)
    requires "handoff_id" in scans[i].doc && !PythonTrue(scans[i].doc["handoff_id"])
    ensures Accepted(scans, RegisteredIds(items, |items|), i) <==> Addable(scans, items, i)
  {
    FalsyCountMeaning(scans, |scans|);
    forall j | 0 <= j < |scans|
      ensures FalsyId(scans[j].doc) <==>
              SevenFields(scans[j].doc) && "handoff_id" in scans[j].doc && !PythonTrue(scans[j].doc["handoff_id"])
    {
      CompleteMeaning(scans[j].doc);
      if Complete(scans[j].doc) {
        CompleteHasField(scans[j].doc, REQUIRED[0]);
        TruthMeaning(scans[j].doc["handoff_id"]);
      }
    }
    assert Addable(scans, items, i) ==> OnlyFalsy(scans, |scans|, i);
  }

  /** The `j`-th of the handoffs in `list` is the one at the `j`-th of the positions. */
  ghost predicate PickedFrom(scans: seq<Scan>, idx: seq<nat>, list: seq<Scan>)
  {
    |list| == |idx| && forall j | 0 <= j < |idx| :: idx[j] < |scans| && list[j] == scans[idx[j]]
  }

  lemma {:induction false} MarkedArePicked(scans: seq<Scan>, registered: set<Json>, marks: seq<bool>, m: nat)
    requires m <= |scans| == |marks| && forall i | 0 <= i < |marks| :: marks[i] <==> Accepted(scans, registered, i)
    ensures PickedFrom(scans, Marked(marks, m), AcceptedList(scans, registered, m))
  {
    if m > 0 {
      MarkedArePicked(scans, registered, marks, m - 1);
      AcceptedStep(scans, registered, m - 1, marks[m - 1]);
      PickedMore(scans, Marked(marks, m - 1), AcceptedList(scans, registered, m - 1), m - 1, marks[m - 1]);
    }
  }

  lemma AcceptedStep(scans: seq<Scan>, registered: set<Json>, i: nat, yes: bool)
    requires i < |scans| && (yes <==> Accepted(scans, registered, i))
    ensures AcceptedList(scans, registered, i + 1) ==
            AcceptedList(scans, registered, i) + if yes then [scans[i]] else []
  {
  }

  lemma PickedMore(scans: seq<Scan>, idx: seq<nat>, list: seq<Scan>, i: nat, yes: bool)
    requires PickedFrom(scans, idx, list) && i < |scans|
    ensures PickedFrom(scans, idx + if yes then [i] else [], list + if yes then [scans[i]] else [])
  {
    assert idx + [] == idx && list + [] == list;
  }

  /** The `j`-th entry added is that of the `j`-th handoff that can be added. */
  lemma AddedMeaning(scans: seq<Scan>, items: seq<Json>)
    ensures PickedFrom(scans, AddableIndices(scans, items),
                       AcceptedList(scans, RegisteredIds(items, |items|), |scans|))
  {
    var marks, registered := Marks(scans, items), RegisteredIds(items, |items|);
    forall i | 0 <= i < |marks| ensures marks[i] <==> Accepted(scans, registered, i) {
      AcceptedMeaning(scans, items, i);
    }
    MarkedArePicked(scans, registered, marks, |scans|);
  }

  /** The registry after the merge: the old entries, then one for each handoff that can be added, in scan order; the
      time of the update if there is any; everything else as it was. */
  ghost predicate GrewAsPromised(doc: Fields, items: seq<Json>, scans: seq<Scan>, now: string, after: Fields)
  {
    exists idx: seq<nat> :: Increasing(idx) &&
                            (forall i: nat :: i in idx <==> i < |scans| && Addable(scans, items, i)) &&
                            GrewBy(doc, items, scans, idx, now, after)
  }

  /** One entry more for each of these handoffs. */
  ghost predicate GrewBy(doc: Fields, items: seq<Json>, scans: seq<Scan>, idx: seq<nat>, now: string, after: Fields)
  {
    && "entries" in after && after["entries"].Arr?
    && var all := after["entries"].items;
    && |all| == |items| + |idx| && all[..|items|] == items
    && (forall j | 0 <= j < |idx| ::
          idx[j] < |scans| && all[|items| + j].Obj? && IsEntryOf(all[|items| + j].fields, scans[idx[j]]))
    && (idx != [] ==> "last_updated" in after && after["last_updated"] == Str(now))
    && forall k | k != "entries" && (idx == [] || k != "last_updated") ::
         (k in after <==> k in doc) && (k in doc ==> after[k] == doc[k])
  }

  lemma MergedAsPromised(doc: Fields, items: seq<Json>, scans: seq<Scan>, now: string)
    ensures GrewAsPromised(doc, items, scans, now, Merged(doc, items, Added(scans, items), now))
  {
    var list := AcceptedList(scans, RegisteredIds(items, |items|), |scans|);
    AddedMeaning(scans, items);
    forall j | 0 <= j < |list| ensures IsEntryOf(Added(scans, items)[j].fields, list[j]) {
      EntryMeaning(list[j]);
    }
    assert Added(scans, items) != [] <==> list != [];
    AddableIndicesMeaning(scans, items);
    assert GrewBy(doc, items, scans, AddableIndices(scans, items), now, Merged(doc, items, Added(scans, items), now));
  }

  /** The registry write is never refused: old entries stay as an unchanged prefix and the accepted ones follow. */
  lemma RegistryGrowsExactly(codec: Codec, raw: Bytes, scans: seq<Scan>, now: string)
    requires codec.Faithful() && Parse(codec, raw).Some? && Mergeable(codec, Parse(codec, raw).value, scans)
    ensures var doc := Parse(codec, raw).value.fields;
            var items := OldEntries(codec, doc).value;
            var r := NewRegistry(codec, Some(raw), scans, now);
            && !r.1 && r.0.Some?
            && r.0.value == Dump(codec, Obj(Merged(doc, items, Added(scans, items), now)))
            && Parse(codec, r.0.value) == Some(Obj(Merged(doc, items, Added(scans, items), now)))
            && OldEntries(codec, Merged(doc, items, Added(scans, items), now)) == Some(items + Added(scans, items))
            && GrewAsPromised(doc, items, scans, now, Parse(codec, r.0.value).value.fields)
  {
    var doc := Parse(codec, raw).value.fields;
    var items := OldEntries(codec, doc).value;
    MergedAsPromised(doc, items, scans, now);
    RegistryWriteSucceeds(codec, raw, doc, items, Added(scans, items), now);
    EntriesAreListed(codec, doc, items, Added(scans, items), now);
  }

  /** The values Python goes through: the elements, the characters, or the keys. */
  ghost predicate GoesThrough(codec: Codec, doc: Fields, items: seq<Json>)
  {
    if "entries" !in doc then items == [] else
    var v := doc["entries"];
    && (v.Arr? ==> items == v.items)
    && (v.Str? ==> |items| == |v.s| && forall i | 0 <= i < |items| :: items[i] == Str([v.s[i]]))
    && (v.Obj? ==> |items| == |codec.keys(v.fields)| &&
                   forall i | 0 <= i < |items| :: items[i] == Str(codec.keys(v.fields)[i]))
    && (v.Arr? || v.Str? || v.Obj?)
  }

  lemma GoesThroughMeaning(codec: Codec, doc: Fields)
    ensures OldEntries(codec, doc).Some? <==> exists items :: GoesThrough(codec, doc, items)
    ensures OldEntries(codec, doc).Some? ==> GoesThrough(codec, doc, OldEntries(codec, doc).value)
    ensures forall items | GoesThrough(codec, doc, items) :: OldEntries(codec, doc) == Some(items)
  {
    assert OldEntries(codec, doc).Some? ==> GoesThrough(codec, doc, OldEntries(codec, doc).value);
    forall items | GoesThrough(codec, doc, items) ensures OldEntries(codec, doc) == Some(items) {
      assert items == OldEntries(codec, doc).value;
    }
  }

  /** An id that is looked up in a set or counted and cannot be: a list or an object, non-empty in an entry or a handoff
      that is not complete. */
  ghost predicate SomeIdCannotBeHashed(items: seq<Json>, scans: seq<Scan>)
  {
    || (exists e :: e in items && e.Obj? && NonEmptyIdList(e.fields))
    || (exists s :: s in scans && (NonEmptyIdList(s.doc) || (SevenFields(s.doc) && IdList(s.doc))))
  }

  ghost predicate IdList(doc: Fields)
  {
    "handoff_id" in doc && (doc["handoff_id"].Arr? || doc["handoff_id"].Obj?)
  }

  ghost predicate NonEmptyIdList(doc: Fields) { IdList(doc) && PythonTrue(doc["handoff_id"]) }

  lemma IdListMeaning(doc: Fields)
    ensures IdList(doc) <==> BadId(doc)
    ensures NonEmptyIdList(doc) <==> HasId(doc) && BadId(doc)
  {
    if "handoff_id" in doc { TruthMeaning(doc["handoff_id"]); }
  }

  lemma HashedMeaning(items: seq<Json>, scans: seq<Scan>)
    ensures SomeIdCannotBeHashed(items, scans) <==> !EntriesOk(items, |items|) || Raises(scans)
  {
    forall doc: Fields ensures (IdList(doc) <==> BadId(doc)) && (NonEmptyIdList(doc) <==> HasId(doc) && BadId(doc)) {
      IdListMeaning(doc);
    }
    if !EntriesOk(items, |items|) {
      var i: nat :| i < |items| && RegisteredEntry(items[i]) && BadId(items[i].fields);
      assert items[i] in items && NonEmptyIdList(items[i].fields);
    }
    if Raises(scans) {
      var i: nat :| i < |scans| && RaisesAt(scans, i);
      CompleteMeaning(scans[i].doc);
      assert scans[i] in scans;
    }
    if e :| e in items && e.Obj? && NonEmptyIdList(e.fields) {
      var i: nat :| i < |items| && items[i] == e;
    }
    if s :| s in scans && (NonEmptyIdList(s.doc) || (SevenFields(s.doc) && IdList(s.doc))) {
      var i: nat :| i < |scans| && scans[i] == s;
      CompleteMeaning(s.doc);
      assert RaisesAt(scans, i);
    }
  }

  /** What the registry pass does to the file: nothing if there is none or it does not parse; an exception, and
      nothing written, if it is not an object, its entries are nothing one can go through, or an id cannot be hashed;
      otherwise the file reads back as the grown registry. */
  ghost predicate RegistryAsPromised(codec: Codec, registry: Option<Bytes>, scans: seq<Scan>, now: string,
                                     after: Option<Bytes>, raised: bool)
  {
    if registry.None? || Parse(codec, registry.value).None? then after == registry && !raised else
    var v := Parse(codec, registry.value).value;
    && (raised <==> !v.Obj? || forall items | GoesThrough(codec, v.fields, items) :: SomeIdCannotBeHashed(items, scans))
    && (raised ==> after == registry)
    && (!raised ==>
          after.Some? && Parse(codec, after.value).Some? && Parse(codec, after.value).value.Obj? &&
          forall items | GoesThrough(codec, v.fields, items) ::
            GrewAsPromised(v.fields, items, scans, now, Parse(codec, after.value).value.fields))
  }

  lemma RegistryMeaning(codec: Codec, registry: Option<Bytes>, scans: seq<Scan>, now: string)
    requires codec.Faithful()
    ensures var r := NewRegistry(codec, registry, scans, now);
            RegistryAsPromised(codec, registry, scans, now, r.0, r.1)
  {
    if registry.Some? && Parse(codec, registry.value).Some? && Parse(codec, registry.value).value.Obj? {
      var v := Parse(codec, registry.value).value;
      GoesThroughMeaning(codec, v.fields);
      if OldEntries(codec, v.fields).Some? { HashedMeaning(OldEntries(codec, v.fields).value, scans); }
      if Mergeable(codec, v, scans) { RegistryGrowsExactly(codec, registry.value, scans, now); }
    }
  }

  // ---- a second merge ------------------------------------------------------------------------------------

  /** `e` carries the id of `scan`. */
  ghost predicate CarriesId(e: Json, scan: Scan)
  {
    e.Obj? && "handoff_id" in e.fields && "handoff_id" in scan.doc && e.fields["handoff_id"] == scan.doc["handoff_id"]
  }

  lemma EntriesCarryIds(new_: seq<Scan>, k: nat)
    requires (forall i | 0 <= i < |new_| :: Complete(new_[i].doc)) && k < |new_|
    ensures CarriesId(Entries(new_)[k], new_[k])
  {
    EntryId(new_[k]);
  }

  lemma {:induction false} EntriesRegister(items: seq<Json>, added: seq<Json>, new_: seq<Scan>, n: nat)
    requires n <= |added| == |new_| && EntriesOk(items, |items|)
    requires forall k | 0 <= k < |new_| :: CarriesId(added[k], new_[k]) && !BadId(new_[k].doc)
    ensures EntriesOk(items + added, |items| + n)
    ensures RegisteredIds(items, |items|) <= RegisteredIds(items + added, |items| + n)
    ensures forall k | 0 <= k < n && HasId(new_[k].doc) ::
            IdKey(new_[k].doc) in RegisteredIds(items + added, |items| + n)
  {
    var all := items + added;
    if n == 0 {
      PrefixIds(items, all, |items|);
      forall i: nat | i < |items| ensures !(RegisteredEntry(all[i]) && BadId(all[i].fields)) {
        assert all[i] == items[i];
      }
    } else {
      EntriesRegister(items, added, new_, n - 1);
      assert all[|items| + n - 1] == added[n - 1] && CarriesId(added[n - 1], new_[n - 1]);
    }
  }

  lemma {:induction false} PrefixIds(a: seq<Json>, b: seq<Json>, n: nat)
    requires n <= |a| <= |b| && a == b[..|a|]
    ensures RegisteredIds(a, n) == RegisteredIds(b, n)
  {
    if n > 0 { PrefixIds(a, b, n - 1); }
  }

  /** What is still accepted once everything accepted before is registered: a lone falsy id, if there is one. */
  lemma StillAccepted(scans: seq<Scan>, first: set<Json>, second: set<Json>, i: nat)
    requires i < |scans| && first <= second
    requires Accepted(scans, first, i) && HasId(scans[i].doc) ==> IdKey(scans[i].doc) in second
    ensures Accepted(scans, second, i) <==> FalsyId(scans[i].doc) && FalsyCount(scans, |scans|) == 1
  {
  }

  lemma {:induction false} NoneAccepted(scans: seq<Scan>, registered: set<Json>, m: nat)
    requires m <= |scans|
    ensures AcceptedList(scans, registered, m) == [] <==> forall i: nat | i < m :: !Accepted(scans, registered, i)
  {
    if m > 0 {
      NoneAccepted(scans, registered, m - 1);
      AcceptedStep(scans, registered, m - 1, Accepted(scans, registered, m - 1));
    }
  }

  lemma AcceptedAgain(scans: seq<Scan>, first: set<Json>, second: set<Json>, m: nat)
    requires m <= |scans| && first <= second
    requires forall i: nat | i < |scans| && Accepted(scans, first, i) && HasId(scans[i].doc) ::
             IdKey(scans[i].doc) in second
    ensures AcceptedList(scans, second, m) == [] <==> FalsyCount(scans, |scans|) != 1 || FalsyCount(scans, m) == 0
  {
    NoneAccepted(scans, second, m);
    FalsyCountMeaning(scans, m);
    forall i: nat | i < m
      ensures Accepted(scans, second, i) <==> FalsyId(scans[i].doc) && FalsyCount(scans, |scans|) == 1
    {
      StillAccepted(scans, first, second, i);
    }
  }

  lemma {:induction false} AcceptedListed(scans: seq<Scan>, registered: set<Json>, m: nat)
    requires m <= |scans| && !Raises(scans)
    ensures forall k | 0 <= k < |AcceptedList(scans, registered, m)| ::
            !BadId(AcceptedList(scans, registered, m)[k].doc)
    ensures forall i: nat | i < m && Accepted(scans, registered, i) :: scans[i] in AcceptedList(scans, registered, m)
  {
    if m > 0 {
      AcceptedListed(scans, registered, m - 1);
      NotRaising(scans, m - 1);
    }
  }

  /** `added` lists entries for `new_`, in order. */
  ghost predicate EntriesFor(added: seq<Json>, new_: seq<Scan>)
  {
    |added| == |new_| && forall k | 0 <= k < |new_| :: CarriesId(added[k], new_[k]) && !BadId(new_[k].doc)
  }

  lemma EntriesAreFor(new_: seq<Scan>)
    requires forall k | 0 <= k < |new_| :: Complete(new_[k].doc)
    requires forall k | 0 <= k < |new_| :: !BadId(new_[k].doc)
    ensures EntriesFor(Entries(new_), new_)
  {
    forall k | 0 <= k < |new_| ensures CarriesId(Entries(new_)[k], new_[k]) { EntriesCarryIds(new_, k); }
  }

  lemma MergeRegisters(items: seq<Json>, added: seq<Json>, new_: seq<Scan>)
    requires EntriesOk(items, |items|) && EntriesFor(added, new_)
    ensures var all := items + added;
            && EntriesOk(all, |all|) && RegisteredIds(items, |items|) <= RegisteredIds(all, |all|)
            && forall s | s in new_ && HasId(s.doc) :: IdKey(s.doc) in RegisteredIds(all, |all|)
  {
    EntriesRegister(items, added, new_, |new_|);
    assert |items + added| == |items| + |new_|;
  }

  /** After a merge, everything with a proper id that was accepted is registered. */
  lemma MergedIsRegistered(scans: seq<Scan>, items: seq<Json>)
    requires EntriesOk(items, |items|) && !Raises(scans)
    ensures var all := items + Added(scans, items);
            var first, second := RegisteredIds(items, |items|), RegisteredIds(all, |all|);
            && EntriesOk(all, |all|) && first <= second
            && forall i: nat | i < |scans| && Accepted(scans, first, i) && HasId(scans[i].doc) ::
                 IdKey(scans[i].doc) in second
  {
    var first := RegisteredIds(items, |items|);
    AcceptedListed(scans, first, |scans|);
    EntriesAreFor(AcceptedList(scans, first, |scans|));
    MergeRegisters(items, Added(scans, items), AcceptedList(scans, first, |scans|));
  }

  /** Merging the same scan again changes the registry exactly when one, and only one, complete handoff has a falsy
      id. */
  lemma SecondMerge(codec: Codec, raw: Bytes, scans: seq<Scan>, now: string, later: string)
    requires codec.Faithful() && Parse(codec, raw).Some? && Mergeable(codec, Parse(codec, raw).value, scans)
    ensures var r1 := NewRegistry(codec, Some(raw), scans, now).0;
            var r2 := NewRegistry(codec, r1, scans, later);
            !r2.1 && (r2.0 == r1 <==> FalsyCount(scans, |scans|) != 1)
  {
    var doc := Parse(codec, raw).value.fields;
    var items := OldEntries(codec, doc).value;
    var added := Added(scans, items);
    var all := items + added;
    var doc1 := Merged(doc, items, added, now);
    RegistryGrowsExactly(codec, raw, scans, now);
    MergedIsRegistered(scans, items);
    var r1 := NewRegistry(codec, Some(raw), scans, now).0.value;
    assert Parse(codec, r1) == Some(Obj(doc1)) && Mergeable(codec, Obj(doc1), scans);
    RegistryGrowsExactly(codec, r1, scans, later);
    var added2 := Added(scans, all);
    AcceptedAgain(scans, RegisteredIds(items, |items|), RegisteredIds(all, |all|), |scans|);
    assert added2 == [] <==> FalsyCount(scans, |scans|) != 1;
    SameDocument(codec, doc, items, added, added2, now, later);
  }

  lemma SameDocument(codec: Codec, doc: Fields, items: seq<Json>, added: seq<Json>, again: seq<Json>, now: string,
                     later: string)
    requires codec.Faithful()
    ensures var doc1 := Merged(doc, items, added, now);
            var doc2 := Merged(doc1, items + added, again, later);
            Dump(codec, Obj(doc2)) == Dump(codec, Obj(doc1)) <==> again == []
  {
    var doc1 := Merged(doc, items, added, now);
    var doc2 := Merged(doc1, items + added, again, later);
    DumpReadsBack(codec, Obj(doc1));
    DumpReadsBack(codec, Obj(doc2));
    EntriesAreListed(codec, doc, items, added, now);
    EntriesAreListed(codec, doc1, items + added, again, later);
    if again == [] {
      assert items + added + again == items + added;
      assert doc1["entries"] == Arr(items + added);
      assert doc2 == doc1;
    } else {
      assert |items + added + again| != |items + added|;
    }
  }

  // ---- the whole run -------------------------------------------------------------------------------------

  /** The parseable handoffs among the first `n` files. */
  function Scans(codec: Codec, paths: seq<string>, raw: seq<Bytes>, n: nat): seq<Scan>
    requires n <= |raw| == |paths|
  {
    if n == 0 then [] else
    Scans(codec, paths, raw, n - 1) +
    match TryParse(codec, raw[n - 1]) { case Some(o) => [Scan(paths[n - 1], o)] case None => [] }
  }

  /** `scans` are the files that parse to an object, with their paths, in the order of the files. */
  ghost predicate HandoffsOf(codec: Codec, paths: seq<string>, raw: seq<Bytes>, scans: seq<Scan>)
    requires |paths| == |raw|
  {
    exists at: seq<nat> :: |at| == |scans| && Increasing(at) && ReadsAt(codec, paths, raw, scans, at)
  }

  /** The handoffs come from the files at the indices `at`, and no other file parses to an object. */
  ghost predicate ReadsAt(codec: Codec, paths: seq<string>, raw: seq<Bytes>, scans: seq<Scan>, at: seq<nat>)
    requires |paths| == |raw| && |at| == |scans|
  {
    && (forall k | 0 <= k < |at| ::
          at[k] < |raw| && scans[k].path == paths[at[k]] && Parse(codec, raw[at[k]]) == Some(Obj(scans[k].doc)))
    && forall i | 0 <= i < |raw| && Parse(codec, raw[i]).Some? && Parse(codec, raw[i]).value.Obj? :: i in at
  }

  lemma HandoffsMeaning(codec: Codec, paths: seq<string>, raw: seq<Bytes>)
    requires |paths| == |raw|
    ensures HandoffsOf(codec, paths, raw, Scans(codec, paths, raw, |raw|))
  {
    var docs := Parsed(codec, raw);
    ScansAreOf(codec, paths, raw, docs, |raw|);
    var scans := ScansOf(paths, docs, |raw|);
    var at := ReadFrom(paths, docs, |raw|);
    forall i | 0 <= i < |raw|
      ensures docs[i].Some? <==> Parse(codec, raw[i]).Some? && Parse(codec, raw[i]).value.Obj?
      ensures docs[i].Some? ==> Parse(codec, raw[i]) == Some(Obj(docs[i].value))
    {
      assert docs[i] == TryParse(codec, raw[i]);
    }
    assert ReadsAt(codec, paths, raw, scans, at);
  }

  /** What each file parses to. */
  ghost function Parsed(codec: Codec, raw: seq<Bytes>): (r: seq<Option<Fields>>)
    ensures |r| == |raw|
  {
    seq(|raw|, i requires 0 <= i < |raw| => TryParse(codec, raw[i]))
  }

  ghost function ScansOf(paths: seq<string>, docs: seq<Option<Fields>>, n: nat): seq<Scan>
    requires n <= |docs| == |paths|
  {
    if n == 0 then [] else
    ScansOf(paths, docs, n - 1) + if docs[n - 1].Some? then [Scan(paths[n - 1], docs[n - 1].value)] else []
  }

  lemma {:induction false} ScansAreOf(codec: Codec, paths: seq<string>, raw: seq<Bytes>, docs: seq<Option<Fields>>,
                                      n: nat)
    requires n <= |raw| == |paths| && docs == Parsed(codec, raw)
    ensures Scans(codec, paths, raw, n) == ScansOf(paths, docs, n)
  {
    if n > 0 {
      ScansAreOf(codec, paths, raw, docs, n - 1);
      assert docs[n - 1] == TryParse(codec, raw[n - 1]);
    }
  }

  /** `at` are the positions of the first `n` files that are read. */
  ghost predicate ReadAmong(paths: seq<string>, docs: seq<Option<Fields>>, n: nat, scans: seq<Scan>, at: seq<nat>)
    requires n <= |docs| == |paths|
  {
    && |at| == |scans| && Increasing(at)
    && (forall k | 0 <= k < |at| :: at[k] < n && scans[k].path == paths[at[k]] && docs[at[k]] == Some(scans[k].doc))
    && forall i: nat | i < n && docs[i].Some? :: i in at
  }

  lemma ReadOneMore(paths: seq<string>, docs: seq<Option<Fields>>, n: nat, scans: seq<Scan>, at: seq<nat>)
    requires n < |docs| == |paths| && ReadAmong(paths, docs, n, scans, at)
    ensures ReadAmong(paths, docs, n + 1,
                      scans + if docs[n].Some? then [Scan(paths[n], docs[n].value)] else [],
                      at + if docs[n].Some? then [n] else [])
  {
    assert scans + [] == scans && at + [] == at;
  }

  lemma {:induction false} ReadFrom(paths: seq<string>, docs: seq<Option<Fields>>, n: nat) returns (at: seq<nat>)
    requires n <= |docs| == |paths|
    ensures ReadAmong(paths, docs, n, ScansOf(paths, docs, n), at)
  {
    if n == 0 { return []; }
    var before := ReadFrom(paths, docs, n - 1);
    ReadOneMore(paths, docs, n - 1, ScansOf(paths, docs, n - 1), before);
    return before + if docs[n - 1].Some? then [n - 1] else [];
  }

  /** The first file on which the status pass raises. */
  function FirstRaise(codec: Codec, raw: seq<Bytes>, i: nat): (r: nat)
    requires i <= |raw|
    ensures i <= r <= |raw| && (r < |raw| ==> FixStatus(codec, raw[r]).None?)
    ensures forall k | i <= k < r :: FixStatus(codec, raw[k]).Some?
    decreases |raw| - i
  {
    if i == |raw| || FixStatus(codec, raw[i]).None? then i else FirstRaise(codec, raw, i + 1)
  }

  function FirstPasses(codec: Codec, raw: seq<Bytes>): seq<Bytes>
  {
    seq(|raw|, i requires 0 <= i < |raw| => FirstThree(codec, raw[i]))
  }

  function StatusPass(codec: Codec, raw: seq<Bytes>): (r: seq<Bytes>)
    ensures |r| == |raw|
  {
    var stop := FirstRaise(codec, raw, 0);
    seq(|raw|, i requires 0 <= i < |raw| => if i < stop then FixStatus(codec, raw[i]).value else raw[i])
  }

  function Files(codec: Codec, raw: seq<Bytes>): seq<Bytes> { StatusPass(codec, FirstPasses(codec, raw)) }

  predicate StatusRaises(codec: Codec, raw: seq<Bytes>)
  {
    FirstRaise(codec, FirstPasses(codec, raw), 0) < |raw|
  }

  /** The corpus, the registry file, and whether the run ended in an exception. */
  datatype Outcome = Outcome(raw: seq<Bytes>, registry: Option<Bytes>, raised: bool)

  ghost function Run(codec: Codec, paths: seq<string>, raw: seq<Bytes>, registry: Option<Bytes>, now: string)
    : (o: Outcome)
    requires |paths| == |raw|
    ensures |o.raw| == |raw|
  {
    var files := Files(codec, raw);
    if StatusRaises(codec, raw) then Outcome(files, registry, true) else
    var r := NewRegistry(codec, registry, Scans(codec, paths, files, |files|), now);
    Outcome(files, r.0, r.1)
  }

  lemma FileSettles(codec: Codec, raw: seq<Bytes>, i: nat)
    requires codec.Faithful() && i < |raw|
    ensures FirstThree(codec, Files(codec, raw)[i]) == Files(codec, raw)[i]
    ensures var a := FirstPasses(codec, raw);
            FixStatus(codec, Files(codec, raw)[i]) ==
              if i < FirstRaise(codec, a, 0) then Some(Files(codec, raw)[i]) else FixStatus(codec, a[i])
  {
    var a := FirstPasses(codec, raw);
    FirstThreeSettle(codec, raw[i]);
    if i < FirstRaise(codec, a, 0) { AllFourSettle(codec, a[i]); }
  }

  lemma {:induction false} SameStop(codec: Codec, a: seq<Bytes>, b: seq<Bytes>, stop: nat, i: nat)
    requires i <= stop <= |a| == |b| && FirstRaise(codec, a, i) == stop
    requires forall k | 0 <= k < stop :: FixStatus(codec, b[k]).Some?
    requires stop < |a| ==> FixStatus(codec, b[stop]).None?
    ensures FirstRaise(codec, b, i) == stop
    decreases stop - i
  {
    if i < stop { SameStop(codec, a, b, stop, i + 1); }
  }

  /** After one run the files no longer change, and the status pass stops where it stopped before. */
  lemma FilesSettle(codec: Codec, raw: seq<Bytes>)
    requires codec.Faithful()
    ensures Files(codec, Files(codec, raw)) == Files(codec, raw)
    ensures StatusRaises(codec, Files(codec, raw)) <==> StatusRaises(codec, raw)
  {
    var a, f := FirstPasses(codec, raw), Files(codec, raw);
    var b := FirstPasses(codec, f);
    var stop := FirstRaise(codec, a, 0);
    forall i: nat | i < |raw|
      ensures b[i] == f[i] && FixStatus(codec, f[i]) == if i < stop then Some(f[i]) else FixStatus(codec, a[i])
    {
      FileSettles(codec, raw, i);
    }
    assert b == f;
    assert stop < |a| ==> f[stop] == a[stop];
    SameStop(codec, a, f, stop, 0);
  }

  /** What a run does: every file goes through the first three passes, and up to the first one on which the status pass
      raises through that pass; the registry is merged into if it raises on none. */
  ghost predicate RunAsPromised(codec: Codec, paths: seq<string>, raw: seq<Bytes>, registry: Option<Bytes>, now: string,
                                o: Outcome)
    requires |paths| == |raw|
  {
    && |o.raw| == |raw|
    && (forall i: nat | i < |raw| :: o.raw[i] == if PassesUpTo(codec, raw, i)
                                                 then FixStatus(codec, FirstThree(codec, raw[i])).value
                                                 else FirstThree(codec, raw[i]))
    && if forall i: nat | i < |raw| :: PassesUpTo(codec, raw, i)
       then exists scans :: HandoffsOf(codec, paths, o.raw, scans) &&
                            RegistryAsPromised(codec, registry, scans, now, o.registry, o.raised)
       else o.raised && o.registry == registry
  }

  /** The status pass raises on none of the files up to `i`. */
  ghost predicate PassesUpTo(codec: Codec, raw: seq<Bytes>, i: nat)
    requires i < |raw|
  {
    forall k: nat | k <= i :: FixStatus(codec, FirstThree(codec, raw[k])).Some?
  }

  lemma StopMeaning(codec: Codec, raw: seq<Bytes>, i: nat)
    requires i < |raw|
    ensures PassesUpTo(codec, raw, i) <==> i < FirstRaise(codec, FirstPasses(codec, raw), 0)
  {
    var a := FirstPasses(codec, raw);
    var stop := FirstRaise(codec, a, 0);
    assert forall k: nat | k < |raw| :: a[k] == FirstThree(codec, raw[k]);
    if stop <= i { assert FixStatus(codec, a[stop]).None?; }
  }

  lemma RunMeaning(codec: Codec, paths: seq<string>, raw: seq<Bytes>, registry: Option<Bytes>, now: string)
    requires codec.Faithful() && |paths| == |raw|
    ensures RunAsPromised(codec, paths, raw, registry, now, Run(codec, paths, raw, registry, now))
  {
    forall i: nat | i < |raw|
      ensures PassesUpTo(codec, raw, i) <==> i < FirstRaise(codec, FirstPasses(codec, raw), 0)
    {
      StopMeaning(codec, raw, i);
    }
    var files := Files(codec, raw);
    if StatusRaises(codec, raw) {
      assert !PassesUpTo(codec, raw, FirstRaise(codec, FirstPasses(codec, raw), 0));
    } else {
      HandoffsMeaning(codec, paths, files);
      RegistryMeaning(codec, registry, Scans(codec, paths, files, |files|), now);
    }
  }

  /** Exactly one handoff has all seven fields and a falsy id. */
  ghost predicate OneFalsyHandoff(scans: seq<Scan>) { exists i: nat :: FalsyAt(scans, i) && NoOtherFalsy(scans, i) }

  ghost predicate FalsyAt(scans: seq<Scan>, i: nat)
  {
    && i < |scans| && SevenFields(scans[i].doc)
    && "handoff_id" in scans[i].doc && !PythonTrue(scans[i].doc["handoff_id"])
  }

  ghost predicate NoOtherFalsy(scans: seq<Scan>, i: nat) { forall j: nat | j != i :: !FalsyAt(scans, j) }

  lemma OneFalsyMeaning(scans: seq<Scan>)
    ensures FalsyCount(scans, |scans|) == 1 <==> OneFalsyHandoff(scans)
  {
    FalsyCountMeaning(scans, |scans|);
    forall j: nat | j < |scans| ensures FalsyId(scans[j].doc) <==> FalsyAt(scans, j) {
      CompleteMeaning(scans[j].doc);
      if Complete(scans[j].doc) {
        CompleteHasField(scans[j].doc, REQUIRED[0]);
        TruthMeaning(scans[j].doc["handoff_id"]);
      }
    }
    forall i: nat ensures OnlyFalsy(scans, |scans|, i) <==> FalsyAt(scans, i) && NoOtherFalsy(scans, i) {}
  }

  /** Exactly one of the repaired handoffs is complete with a falsy id, the status pass gets through, and there is a
      registry that can be merged into. */
  ghost predicate LoneFalsyId(codec: Codec, paths: seq<string>, raw: seq<Bytes>, registry: Option<Bytes>)
    requires |paths| == |raw|
  {
    var scans := Scans(codec, paths, Files(codec, raw), |raw|);
    && OneFalsyHandoff(scans)
    && !StatusRaises(codec, raw)
    && registry.Some? && Parse(codec, registry.value).Some?
    && Mergeable(codec, Parse(codec, registry.value).value, scans)
  }

  /** Running the repair a second time, at any later time, changes no handoff file whatever the first run repaired or
      refused, and raises if and only if the first did; it changes the registry file exactly when there is a lone
      complete handoff whose id is falsy, which is then added once more on every run. */
  lemma SecondRun(codec: Codec, paths: seq<string>, raw: seq<Bytes>, registry: Option<Bytes>, now: string,
                  later: string)
    requires codec.Faithful() && |paths| == |raw|
    ensures var o1 := Run(codec, paths, raw, registry, now);
            var o2 := Run(codec, paths, o1.raw, o1.registry, later);
            && o2.raw == o1.raw && o2.raised == o1.raised
            && (o2.registry == o1.registry <==> !LoneFalsyId(codec, paths, raw, registry))
  {
    FilesSettle(codec, raw);
    var files := Files(codec, raw);
    var scans := Scans(codec, paths, files, |files|);
    OneFalsyMeaning(scans);
    if !StatusRaises(codec, raw) && registry.Some? && Parse(codec, registry.value).Some? {
      if Mergeable(codec, Parse(codec, registry.value).value, scans) {
        RegistryGrowsExactly(codec, registry.value, scans, now);
        SecondMerge(codec, registry.value, scans, now, later);
      }
    }
  }

  /** A handoff whose id is `false`. */
  function FalseIdHandoff(): Fields { WithId(Bool(false)) }

  lemma FalseIdIsFalsy()
    ensures FalsyId(FalseIdHandoff()) && "result" !in FalseIdHandoff()
  {
    var doc := FalseIdHandoff();
    forall k | k in REQUIRED ensures k in doc && doc[k] != Null && doc[k] != Str("") {
      var i :| 0 <= i < |REQUIRED| && REQUIRED[i] == k;
    }
  }

  lemma FalseIdFiles(codec: Codec)
    requires codec.Faithful()
    ensures var raw := [Dump(codec, Obj(FalseIdHandoff()))];
            && Files(codec, raw) == raw && !StatusRaises(codec, raw)
            && Scans(codec, ["step-01.json"], raw, 1) == [Scan("step-01.json", FalseIdHandoff())]
  {
    var doc := FalseIdHandoff();
    var raw, paths := [Dump(codec, Obj(doc))], ["step-01.json"];
    FalseIdIsFalsy();
    DumpReadsBack(codec, Obj(doc));
    assert FirstPasses(codec, raw)[0] == raw[0];
    assert FirstPasses(codec, raw) == raw;
    assert FirstRaise(codec, raw, 0) == 1;
    assert Files(codec, raw)[0] == raw[0];
    assert Scans(codec, paths, raw, 1) == Scans(codec, paths, raw, 0) + [Scan(paths[0], doc)];
  }

  /** The repair is not idempotent: this corpus gains a registry entry on every run. */
  lemma FalseIdIsAddedAgain(codec: Codec, now: string, later: string)
    requires codec.Faithful()
    ensures var raw := [Dump(codec, Obj(FalseIdHandoff()))];
            var registry := Some(Dump(codec, Obj(map["entries" := Arr([])])));
            var o1 := Run(codec, ["step-01.json"], raw, registry, now);
            Run(codec, ["step-01.json"], o1.raw, o1.registry, later).registry != o1.registry
  {
    var raw, paths := [Dump(codec, Obj(FalseIdHandoff()))], ["step-01.json"];
    var reg := map["entries" := Arr([])];
    var registry := Some(Dump(codec, Obj(reg)));
    FalseIdFiles(codec);
    FalseIdIsFalsy();
    DumpReadsBack(codec, Obj(reg));
    var scans := Scans(codec, paths, raw, 1);
    assert FalsyCount(scans, 1) == FalsyCount(scans, 0) + 1;
    forall i: nat | i < |scans| ensures !RaisesAt(scans, i) {}
    assert OldEntries(codec, reg) == Some([]);
    assert Mergeable(codec, Obj(reg), scans);
    OneFalsyMeaning(scans);
    assert LoneFalsyId(codec, paths, raw, registry);
    SecondRun(codec, paths, raw, registry, now, later);
  }

  /** The corpus on disk. */
  class Repository {
    const codec: Codec
    const paths: seq<string>
    var raw: seq<Bytes>
    var registry: Option<Bytes>

    ghost predicate Valid()
      reads this
    {
      |paths| == |raw|
    }

    constructor (codec: Codec, paths: seq<string>, raw: seq<Bytes>, registry: Option<Bytes>)
      requires |paths| == |raw|
      ensures Valid() && this.codec == codec && this.paths == paths && this.raw == raw && this.registry == registry
    {
      this.codec := codec;
      this.paths := paths;
      this.raw := raw;
      this.registry := registry;
    }

    method RunBom()
      requires Valid()
      modifies `raw
      ensures Valid() && forall k | 0 <= k < |raw| :: raw[k] == FixBom(codec, old(raw)[k])
    {
      for i := 0 to |raw|
        invariant |raw| == |old(raw)|
        invariant forall k | 0 <= k < |raw| :: raw[k] == if k < i then FixBom(codec, old(raw)[k]) else old(raw)[k]
      {
        raw := raw[i := FixBom(codec, raw[i])];
      }
    }

    /** `try_fix_h001_encoding` behind the candidate check, then the verified write. */
    method RepairEncoding(b: Bytes) returns (r: Bytes)
      ensures r == FixEncoding(codec, b)
    {
      r := b;
      if Parse(codec, b).Some? { return; }
      var candidate := Reencoded(b);
      if candidate.None? || Parse(codec, candidate.value).None? { return; }
      var ok := OnlyKnownCorruptionBytesDiffer(b, candidate.value);
      if ok { r := candidate.value; }
    }

    method RunEncoding()
      requires Valid()
      modifies `raw
      ensures Valid() && forall k | 0 <= k < |raw| :: raw[k] == FixEncoding(codec, old(raw)[k])
    {
      for i := 0 to |raw|
        invariant |raw| == |old(raw)|
        invariant forall k | 0 <= k < |raw| :: raw[k] == if k < i then FixEncoding(codec, old(raw)[k]) else old(raw)[k]
      {
        var fixed := RepairEncoding(raw[i]);
        raw := raw[i := fixed];
      }
    }

    method RunResult()
      requires Valid()
      modifies `raw
      ensures Valid() && forall k | 0 <= k < |raw| :: raw[k] == FixResult(codec, old(raw)[k])
    {
      for i := 0 to |raw|
        invariant |raw| == |old(raw)|
        invariant forall k | 0 <= k < |raw| :: raw[k] == if k < i then FixResult(codec, old(raw)[k]) else old(raw)[k]
      {
        raw := raw[i := FixResult(codec, raw[i])];
      }
    }

    /** Stops at the first file on which the rename raises, with the files before it already rewritten. */
    method RunStatus() returns (raised: bool)
      requires Valid()
      modifies `raw
      ensures Valid() && raw == StatusPass(codec, old(raw)) && (raised <==> FirstRaise(codec, old(raw), 0) < |raw|)
    {
      ghost var stop := FirstRaise(codec, raw, 0);
      for i := 0 to |raw|
        invariant |raw| == |old(raw)| && i <= stop
        invariant forall k | 0 <= k < |raw| ::
                  raw[k] == if k < i then FixStatus(codec, old(raw)[k]).value else old(raw)[k]
      {
        var fixed := FixStatus(codec, raw[i]);
        if fixed.None? { return true; }
        assert i < stop;
        raw := raw[i := fixed.value];
      }
      return false;
    }

    method Scan() returns (scans: seq<Scan>)
      requires Valid()
      ensures scans == Scans(codec, paths, raw, |raw|)
    {
      scans := [];
      for i := 0 to |raw|
        invariant scans == Scans(codec, paths, raw, i)
      {
        match TryParse(codec, raw[i])
        case Some(o) => scans := scans + [Backfill.Scan(paths[i], o)];
        case None =>
      }
    }

    method RunRegistry(now: string) returns (raised: bool)
      requires Valid()
      modifies `registry
      ensures (registry, raised) == NewRegistry(codec, old(registry), Scans(codec, paths, raw, |raw|), now)
      ensures codec.Faithful() ==>
                exists scans :: HandoffsOf(codec, paths, raw, scans) &&
                                RegistryAsPromised(codec, old(registry), scans, now, registry, raised)
    {
      ghost var read := Scans(codec, paths, raw, |raw|);
      HandoffsMeaning(codec, paths, raw);
      if codec.Faithful() { RegistryMeaning(codec, registry, read, now); }
      if registry.None? { return false; }
      var parsed := Parse(codec, registry.value);
      if parsed.None? { return false; }
      var scans := Scan();
      if !parsed.value.Obj? { return true; }
      var items := OldEntries(codec, parsed.value.fields);
      if items.None? { return true; }
      var ids := CollectRegistered(items.value);
      if ids.None? { return true; }
      var accepted := NewEntries(ids.value, scans);
      if accepted.None? { return true; }
      var added := Entries(accepted.value);
      registry := Some(WriteRegistry(codec, registry.value, parsed.value.fields, items.value, added, now));
      return false;
    }

    /** The passes in their fixed order; an exception ends the run. */
    method Repair(now: string) returns (raised: bool)
      requires Valid()
      modifies this
      ensures Valid() && Outcome(raw, registry, raised) == Run(codec, paths, old(raw), old(registry), now)
      ensures codec.Faithful() ==>
                RunAsPromised(codec, paths, old(raw), old(registry), now, Outcome(raw, registry, raised))
    {
      if codec.Faithful() { RunMeaning(codec, paths, raw, registry, now); }
      RunBom();
      RunEncoding();
      RunResult();
      assert raw == FirstPasses(codec, old(raw));
      raised := RunStatus();
      if raised { return; }
      raised := RunRegistry(now);
    }
  }
}
