/** H010: which handoffs missing from the registry are added to it. */
module Backfill {
  import opened Handoffs
  import opened Registry

  /** A handoff that parses to an object. */
  datatype Scan = Scan(path: string, doc: Fields)

  const REQUIRED: seq<string> := ["handoff_id", "run_id", "step", "from_agent", "to_agent", "created_at", "status"]

  predicate Truthy(v: Json)
  {
    match v
    case Null => false
    case Bool(b) => b
    case Num(n) => n != 0
    case Fraction(_) => true
    case Str(s) => s != ""
    case Arr(items) => items != []
    case Obj(fields) => fields != map[]
  }

  /** What Python's hash and equality see of a value that can be hashed: True is 1 and False is 0. */
  function Key(v: Json): Json { match v case Bool(b) => Num(if b then 1 else 0) case _ => v }

  predicate HasId(doc: Fields) { "handoff_id" in doc && Truthy(doc["handoff_id"]) }

  predicate BadId(doc: Fields) { "handoff_id" in doc && Unhashable(doc["handoff_id"]) }

  function IdKey(doc: Fields): Json { if "handoff_id" in doc then Key(doc["handoff_id"]) else Null }

  /** All seven required fields are present, and none is null or empty. */
  predicate Complete(doc: Fields)
  {
    forall k | k in REQUIRED :: k in doc && doc[k] != Null && doc[k] != Str("")
  }

  lemma CompleteHasField(doc: Fields, k: string)
    requires Complete(doc) && k in REQUIRED
    ensures k in doc
  {
  }

  /** `build_registry_entry` for a complete handoff. */
  function Entry(scan: Scan): Fields
    requires Complete(scan.doc)
  {
    var doc := scan.doc;
    assert forall i | 0 <= i < 7 :: REQUIRED[i] in REQUIRED;
    assert REQUIRED[0] in doc && REQUIRED[1] in doc && REQUIRED[2] in doc && REQUIRED[3] in doc && REQUIRED[4] in doc
        && REQUIRED[5] in doc && REQUIRED[6] in doc;
    var e := map["handoff_id" := doc["handoff_id"], "file" := Str(scan.path), "run_id" := doc["run_id"],
                 "step" := doc["step"], "from_agent" := doc["from_agent"], "to_agent" := doc["to_agent"],
                 "created_at" := doc["created_at"], "status" := doc["status"]];
    if "stage" in doc && Truthy(doc["stage"]) then e["stage" := doc["stage"]] else e
  }

  // ---- what is promised, in terms of the handoffs -----------------------------------------------------------

  /** What Python takes for true. */
  ghost predicate PythonTrue(v: Json)
  {
    v != Null && v != Bool(false) && v != Num(0) && v != Str("") && v != Arr([]) && v != Obj(map[])
  }

  /** The seven fields a registry entry needs are there. */
  ghost predicate SevenFields(doc: Fields)
  {
    forall k | k in ["handoff_id", "run_id", "step", "from_agent", "to_agent", "created_at", "status"] ::
      k in doc && doc[k] != Null && doc[k] != Str("")
  }

  /** Python's equality of two values that can be hashed. */
  ghost predicate EqualIds(a: Json, b: Json)
  {
    a == b || (a, b) in {(Bool(true), Num(1)), (Num(1), Bool(true)), (Bool(false), Num(0)), (Num(0), Bool(false))}
  }

  /** `e` is the entry for the handoff: its seven fields, where it is, its stage if it has one, and nothing else. */
  ghost predicate IsEntryOf(e: Fields, scan: Scan)
  {
    && (forall k | k in ["handoff_id", "run_id", "step", "from_agent", "to_agent", "created_at", "status"] ::
          k in e && k in scan.doc && e[k] == scan.doc[k])
    && "file" in e && e["file"] == Str(scan.path)
    && ("stage" in e <==> "stage" in scan.doc && PythonTrue(scan.doc["stage"]))
    && ("stage" in e ==> e["stage"] == scan.doc["stage"])
    && forall k | k in e ::
         k in ["handoff_id", "run_id", "step", "from_agent", "to_agent", "created_at", "status", "file", "stage"]
  }

  lemma TruthMeaning(v: Json)
    ensures Truthy(v) <==> PythonTrue(v)
  {
  }

  lemma KeyMeaning(a: Json, b: Json)
    ensures Key(a) == Key(b) <==> EqualIds(a, b)
  {
  }

  lemma CompleteMeaning(doc: Fields)
    ensures Complete(doc) <==> SevenFields(doc)
  {
  }

  lemma EntryMeaning(scan: Scan)
    requires Complete(scan.doc)
    ensures IsEntryOf(Entry(scan), scan)
  {
    EntryCopies(scan);
    EntryStage(scan);
    EntryHasNoMore(scan);
  }

  lemma EntryCopies(scan: Scan)
    requires Complete(scan.doc)
    ensures forall k | k in ["handoff_id", "run_id", "step", "from_agent", "to_agent", "created_at", "status"] ::
              k in Entry(scan) && k in scan.doc && Entry(scan)[k] == scan.doc[k]
  {
    forall k | k in ["handoff_id", "run_id", "step", "from_agent", "to_agent", "created_at", "status"]
      ensures k in Entry(scan) && k in scan.doc && Entry(scan)[k] == scan.doc[k]
    {
      assert k in REQUIRED;
    }
  }

  lemma EntryStage(scan: Scan)
    requires Complete(scan.doc)
    ensures "file" in Entry(scan) && Entry(scan)["file"] == Str(scan.path)
    ensures "stage" in Entry(scan) <==> "stage" in scan.doc && PythonTrue(scan.doc["stage"])
    ensures "stage" in Entry(scan) ==> Entry(scan)["stage"] == scan.doc["stage"]
  {
    if "stage" in scan.doc { TruthMeaning(scan.doc["stage"]); }
  }

  lemma EntryHasNoMore(scan: Scan)
    requires Complete(scan.doc)
    ensures forall k | k in Entry(scan) ::
              k in ["handoff_id", "run_id", "step", "from_agent", "to_agent", "created_at", "status", "file", "stage"]
  {
  }

  lemma EntryId(scan: Scan)
    requires Complete(scan.doc)
    ensures "handoff_id" in Entry(scan) && "handoff_id" in scan.doc
    ensures Entry(scan)["handoff_id"] == scan.doc["handoff_id"]
  {
    EntryCopies(scan);
    assert "handoff_id" in ["handoff_id", "run_id", "step", "from_agent", "to_agent", "created_at", "status"];
  }

  // ---- the specification -----------------------------------------------------------------------------

  /** Another of the first `n` handoffs carries the same id as the `i`-th. */
  ghost predicate Duplicated(scans: seq<Scan>, n: nat, i: nat)
    requires i < n <= |scans|
  {
    exists j: nat :: j < n && j != i && SameId(scans, i, j)
  }

  ghost predicate SameId(scans: seq<Scan>, i: nat, j: nat)
    requires i < |scans| && j < |scans|
  {
    HasId(scans[i].doc) && HasId(scans[j].doc) && IdKey(scans[i].doc) == IdKey(scans[j].doc)
  }

  /** The `i`-th handoff is a candidate after `n` have been looked at. */
  ghost predicate Staged(scans: seq<Scan>, registered: set<Json>, n: nat, i: nat)
    requires i < n <= |scans|
  {
    Complete(scans[i].doc) &&
    (HasId(scans[i].doc) ==> IdKey(scans[i].doc) !in registered && !Duplicated(scans, n, i))
  }

  ghost function StagedList(scans: seq<Scan>, registered: set<Json>, n: nat, m: nat): (r: seq<Scan>)
    requires m <= n <= |scans|
    ensures forall k | 0 <= k < |r| :: Complete(r[k].doc)
  {
    if m == 0 then [] else
    StagedList(scans, registered, n, m - 1) + if Staged(scans, registered, n, m - 1) then [scans[m - 1]] else []
  }

  /** A complete handoff whose id is present but falsy: 0, false, or an empty list or object. */
  predicate FalsyId(doc: Fields) { Complete(doc) && !HasId(doc) }

  ghost function FalsyCount(scans: seq<Scan>, m: nat): nat
    requires m <= |scans|
  {
    if m == 0 then 0 else FalsyCount(scans, m - 1) + if FalsyId(scans[m - 1].doc) then 1 else 0
  }

  /** The `i`-th handoff ends up in the registry. */
  ghost predicate Accepted(scans: seq<Scan>, registered: set<Json>, i: nat)
    requires i < |scans|
  {
    Staged(scans, registered, |scans|, i) && (HasId(scans[i].doc) || FalsyCount(scans, |scans|) == 1)
  }

  ghost function AcceptedList(scans: seq<Scan>, registered: set<Json>, m: nat): (r: seq<Scan>)
    requires m <= |scans|
    ensures forall k | 0 <= k < |r| :: Complete(r[k].doc)
  {
    if m == 0 then [] else
    AcceptedList(scans, registered, m - 1) + if Accepted(scans, registered, m - 1) then [scans[m - 1]] else []
  }

  /** Some id cannot be hashed: a non-empty list or object anywhere, or an empty one in a complete handoff. */
  ghost predicate Raises(scans: seq<Scan>)
  {
    exists i: nat :: i < |scans| && RaisesAt(scans, i)
  }

  ghost predicate RaisesAt(scans: seq<Scan>, i: nat)
    requires i < |scans|
  {
    BadId(scans[i].doc) && (HasId(scans[i].doc) || Complete(scans[i].doc))
  }

  // ---- the scan --------------------------------------------------------------------------------------

  /** `[e for e in new if e["handoff_id"] != hid]`. */
  function Without(list: seq<Scan>, key: Json): seq<Scan>
  {
    if list == [] then [] else
    var rest, last := Without(list[..|list| - 1], key), list[|list| - 1];
    if !BadId(last.doc) && IdKey(last.doc) == key then rest else rest + [last]
  }

  /** No id among the first `n` makes the scan itself raise. */
  ghost predicate ScanOk(scans: seq<Scan>, n: nat)
    requires n <= |scans|
  {
    forall i: nat | i < n :: !TruthyBad(scans[i].doc)
  }

  predicate TruthyBad(doc: Fields) { HasId(doc) && BadId(doc) }

  /** Comparing keys finds exactly the candidates with the same id. */
  lemma KeyFindsId(scans: seq<Scan>, i: nat, n: nat)
    requires i < |scans| && n < |scans| && Complete(scans[i].doc) && HasId(scans[n].doc)
    requires !TruthyBad(scans[i].doc) && !TruthyBad(scans[n].doc)
    ensures (!BadId(scans[i].doc) && IdKey(scans[i].doc) == IdKey(scans[n].doc)) <==> SameId(scans, i, n)
  {
    CompleteHasField(scans[i].doc, REQUIRED[0]);
  }

  /** Looking at one more handoff drops exactly the candidates that share its id. */
  lemma StagedStep(scans: seq<Scan>, registered: set<Json>, n: nat, i: nat)
    requires i < n < |scans|
    ensures Staged(scans, registered, n + 1, i) <==> Staged(scans, registered, n, i) && !SameId(scans, i, n)
  {
    if Duplicated(scans, n, i) {
      var j: nat :| j < n && j != i && SameId(scans, i, j);
      assert Duplicated(scans, n + 1, i);
    }
    if SameId(scans, i, n) { assert Duplicated(scans, n + 1, i); }
    if Duplicated(scans, n + 1, i) {
      var j: nat :| j < n + 1 && j != i && SameId(scans, i, j);
      assert j < n ==> Duplicated(scans, n, i);
    }
  }

  lemma {:induction false} StagedKept(scans: seq<Scan>, registered: set<Json>, n: nat, m: nat)
    requires m <= n < |scans|
    requires forall i: nat | i < n && Staged(scans, registered, n, i) :: !SameId(scans, i, n)
    ensures StagedList(scans, registered, n + 1, m) == StagedList(scans, registered, n, m)
  {
    if m > 0 {
      StagedKept(scans, registered, n, m - 1);
      StagedStep(scans, registered, n, m - 1);
    }
  }

  lemma WithoutLast(list: seq<Scan>, last: Scan, key: Json)
    ensures Without(list + [last], key) ==
            Without(list, key) + if !BadId(last.doc) && IdKey(last.doc) == key then [] else [last]
  {
    assert (list + [last])[..|list|] == list;
  }

  lemma {:induction false} StagedRemoved(scans: seq<Scan>, registered: set<Json>, n: nat, m: nat)
    requires m <= n < |scans| && HasId(scans[n].doc) && ScanOk(scans, n) && !TruthyBad(scans[n].doc)
    ensures Without(StagedList(scans, registered, n, m), IdKey(scans[n].doc)) == StagedList(scans, registered, n + 1, m)
  {
    if m > 0 {
      var i := m - 1;
      StagedRemoved(scans, registered, n, i);
      StagedStep(scans, registered, n, i);
      var list := StagedList(scans, registered, n, i);
      assert StagedList(scans, registered, n, m) == list + if Staged(scans, registered, n, i) then [scans[i]] else [];
      assert list + [] == list;
      if Staged(scans, registered, n, i) {
        assert !TruthyBad(scans[i].doc);
        KeyFindsId(scans, i, n);
        WithoutLast(list, scans[i], IdKey(scans[n].doc));
      }
    }
  }

  /** The ids seen so far that are not registered. */
  ghost predicate SeenIds(scans: seq<Scan>, registered: set<Json>, n: nat, seen: set<Json>)
    requires n <= |scans|
  {
    forall k :: k in seen <==> k !in registered && SeenBefore(scans, n, k)
  }

  ghost predicate SeenBefore(scans: seq<Scan>, n: nat, k: Json)
    requires n <= |scans|
  {
    exists i: nat :: i < n && HasId(scans[i].doc) && IdKey(scans[i].doc) == k
  }

  lemma SeenStep(scans: seq<Scan>, n: nat, k: Json)
    requires n < |scans|
    ensures SeenBefore(scans, n + 1, k) <==>
            SeenBefore(scans, n, k) || (HasId(scans[n].doc) && IdKey(scans[n].doc) == k)
  {
    if SeenBefore(scans, n, k) { var i: nat :| i < n && HasId(scans[i].doc) && IdKey(scans[i].doc) == k; }
    if SeenBefore(scans, n + 1, k) {
      var i: nat :| i < n + 1 && HasId(scans[i].doc) && IdKey(scans[i].doc) == k;
      assert i < n ==> SeenBefore(scans, n, k);
    }
  }

  /** One file of the scan: the candidates and the seen ids after it. */
  lemma ScanStep(scans: seq<Scan>, registered: set<Json>, n: nat, seen: set<Json>)
    requires n < |scans| && SeenIds(scans, registered, n, seen) && ScanOk(scans, n) && !TruthyBad(scans[n].doc)
    ensures var doc, list := scans[n].doc, StagedList(scans, registered, n, n);
            var last := if Complete(doc) then [scans[n]] else [];
            var key := IdKey(doc);
            && ScanOk(scans, n + 1)
            && (HasId(doc) && key in registered ==>
                  SeenIds(scans, registered, n + 1, seen) && StagedList(scans, registered, n + 1, n + 1) == list)
            && (HasId(doc) && key !in registered && key in seen ==>
                  SeenIds(scans, registered, n + 1, seen) &&
                  StagedList(scans, registered, n + 1, n + 1) == Without(list, key))
            && (HasId(doc) && key !in registered && key !in seen ==>
                  SeenIds(scans, registered, n + 1, seen + {key}) &&
                  StagedList(scans, registered, n + 1, n + 1) == list + last)
            && (!HasId(doc) ==>
                  SeenIds(scans, registered, n + 1, seen) && StagedList(scans, registered, n + 1, n + 1) == list + last)
  {
    var doc := scans[n].doc;
    forall k ensures SeenBefore(scans, n + 1, k) <==> SeenBefore(scans, n, k) || (HasId(doc) && IdKey(doc) == k) {
      SeenStep(scans, n, k);
    }
    if HasId(doc) && IdKey(doc) in seen && IdKey(doc) !in registered {
      StagedRemoved(scans, registered, n, n);
      var i: nat :| i < n && HasId(scans[i].doc) && IdKey(scans[i].doc) == IdKey(doc);
      assert SameId(scans, n, i);
      assert Duplicated(scans, n + 1, n);
    } else {
      forall i: nat | i < n && Staged(scans, registered, n, i) ensures !SameId(scans, i, n) {
        assert SeenBefore(scans, n, IdKey(doc)) || !SameId(scans, i, n);
      }
      StagedKept(scans, registered, n, n);
      assert HasId(doc) && IdKey(doc) !in registered ==> !Duplicated(scans, n + 1, n);
    }
  }

  /** The loop over the scanned files; None stands for the TypeError raised on an id that cannot be hashed. */
  method Stage(registered: set<Json>, scans: seq<Scan>) returns (r: Option<seq<Scan>>)
    ensures r.None? <==> !ScanOk(scans, |scans|)
    ensures r.Some? ==> r.value == StagedList(scans, registered, |scans|, |scans|)
  {
    var staged: seq<Scan> := [];
    var seen: set<Json> := {};
    for n := 0 to |scans|
      invariant ScanOk(scans, n) && SeenIds(scans, registered, n, seen)
      invariant staged == StagedList(scans, registered, n, n)
    {
      var doc := scans[n].doc;
      if TruthyBad(doc) { return None; }
      ScanStep(scans, registered, n, seen);
      if HasId(doc) {
        var key := IdKey(doc);
        if key in registered { continue; }
        if key in seen {
          staged := Without(staged, key);
          continue;
        }
        seen := seen + {key};
      }
      if !Complete(doc) { continue; }
      staged := staged + [scans[n]];
    }
    return Some(staged);
  }

  // ---- the final duplicate filter ----------------------------------------------------------------------

  function Count(list: seq<Scan>, key: Json): nat
  {
    if list == [] then 0 else
    Count(list[..|list| - 1], key) + if IdKey(list[|list| - 1].doc) == key then 1 else 0
  }

  /** The elements of `list` whose id occurs once in `whole`. */
  function Unique(list: seq<Scan>, whole: seq<Scan>): seq<Scan>
  {
    if list == [] then [] else
    var last := list[|list| - 1];
    Unique(list[..|list| - 1], whole) + if Count(whole, IdKey(last.doc)) == 1 then [last] else []
  }

  ghost predicate Counted(counts: map<Json, nat>, list: seq<Scan>)
  {
    forall k :: Count(list, k) == if k in counts then counts[k] else 0
  }

  lemma CountedStep(counts: map<Json, nat>, list: seq<Scan>, last: Scan)
    requires Counted(counts, list)
    ensures var key := IdKey(last.doc);
            Counted(counts[key := (if key in counts then counts[key] else 0) + 1], list + [last])
  {
    assert (list + [last])[..|list|] == list;
  }

  ghost predicate AllHashable(list: seq<Scan>) { forall k | 0 <= k < |list| :: !BadId(list[k].doc) }

  /** The counting pass and the comprehension after it; None stands for the TypeError raised on an unhashable id. */
  method DropDuplicates(staged: seq<Scan>) returns (r: Option<seq<Scan>>)
    ensures r.None? <==> !AllHashable(staged)
    ensures r.Some? ==> r.value == Unique(staged, staged)
  {
    var counts: map<Json, nat> := map[];
    for k := 0 to |staged|
      invariant forall i | 0 <= i < k :: !BadId(staged[i].doc)
      invariant Counted(counts, staged[..k])
    {
      if BadId(staged[k].doc) { return None; }
      CountedStep(counts, staged[..k], staged[k]);
      assert staged[..k + 1] == staged[..k] + [staged[k]];
      var key := IdKey(staged[k].doc);
      counts := counts[key := (if key in counts then counts[key] else 0) + 1];
    }
    assert staged[..|staged|] == staged;
    var kept: seq<Scan> := [];
    for k := 0 to |staged|
      invariant kept == Unique(staged[..k], staged)
    {
      var key := IdKey(staged[k].doc);
      assert staged[..k + 1][..k] == staged[..k] && staged[..k + 1][k] == staged[k];
      assert Count(staged, key) == if key in counts then counts[key] else 0;
      if key in counts && counts[key] == 1 { kept := kept + [staged[k]]; }
    }
    return Some(kept);
  }

  lemma FalsyKey(doc: Fields)
    requires Complete(doc) && !BadId(doc)
    ensures IdKey(doc) == Num(0) <==> !HasId(doc)
  {
    assert REQUIRED[0] in REQUIRED;
  }

  lemma CountStep(list: seq<Scan>, last: Scan, key: Json)
    ensures Count(list + [last], key) == Count(list, key) + if IdKey(last.doc) == key then 1 else 0
    ensures Count(list + [], key) == Count(list, key)
  {
    assert (list + [last])[..|list|] == list && list + [] == list;
  }

  lemma NotRaising(scans: seq<Scan>, i: nat)
    requires !Raises(scans) && i < |scans|
    ensures !TruthyBad(scans[i].doc) && (Complete(scans[i].doc) ==> !BadId(scans[i].doc))
  {
    assert !RaisesAt(scans, i);
  }

  /** Candidates with a proper id are already unique. */
  lemma {:induction false} ProperIdsOccurOnce(scans: seq<Scan>, registered: set<Json>, m: nat, i: nat)
    requires m <= |scans| && i < |scans| && !Raises(scans)
    requires Staged(scans, registered, |scans|, i) && HasId(scans[i].doc)
    ensures Count(StagedList(scans, registered, |scans|, m), IdKey(scans[i].doc)) == if i < m then 1 else 0
  {
    if m > 0 {
      var j := m - 1;
      ProperIdsOccurOnce(scans, registered, j, i);
      CountStep(StagedList(scans, registered, |scans|, j), scans[j], IdKey(scans[i].doc));
      NotRaising(scans, i);
      NotRaising(scans, j);
      if Staged(scans, registered, |scans|, j) && j != i {
        FalsyKey(scans[j].doc);
        FalsyKey(scans[i].doc);
        if IdKey(scans[j].doc) == IdKey(scans[i].doc) {
          assert SameId(scans, i, j);
        }
      }
    }
  }

  lemma {:induction false} FalsyIdsAreCounted(scans: seq<Scan>, registered: set<Json>, m: nat)
    requires m <= |scans| && !Raises(scans)
    ensures Count(StagedList(scans, registered, |scans|, m), Num(0)) == FalsyCount(scans, m)
  {
    if m > 0 {
      var j := m - 1;
      FalsyIdsAreCounted(scans, registered, j);
      var list := StagedList(scans, registered, |scans|, j);
      CountStep(list, scans[j], Num(0));
      NotRaising(scans, j);
      if Staged(scans, registered, |scans|, j) {
        FalsyKey(scans[j].doc);
        assert StagedList(scans, registered, |scans|, m) == list + [scans[j]];
      } else {
        assert StagedList(scans, registered, |scans|, m) == list + [];
        assert !FalsyId(scans[j].doc);
      }
    }
  }

  /** The whole scan accepts exactly the handoffs that `Accepted` describes, in scan order. */
  lemma {:induction false} AcceptedExactly(scans: seq<Scan>, registered: set<Json>, m: nat)
    requires m <= |scans| && !Raises(scans)
    ensures Unique(StagedList(scans, registered, |scans|, m), StagedList(scans, registered, |scans|, |scans|)) ==
            AcceptedList(scans, registered, m)
  {
    if m > 0 {
      var i, n := m - 1, |scans|;
      AcceptedExactly(scans, registered, i);
      var list := StagedList(scans, registered, n, i);
      assert list + [] == list && (list + [scans[i]])[..|list|] == list;
      if Staged(scans, registered, n, i) {
        NotRaising(scans, i);
        FalsyKey(scans[i].doc);
        if HasId(scans[i].doc) {
          ProperIdsOccurOnce(scans, registered, n, i);
        } else {
          FalsyIdsAreCounted(scans, registered, n);
        }
      }
    }
  }

  /** The final filter drops something exactly when two complete handoffs have falsy ids. */
  lemma FilterDropsOnlyFalsyIds(scans: seq<Scan>, registered: set<Json>)
    requires !Raises(scans)
    ensures AcceptedList(scans, registered, |scans|) == StagedList(scans, registered, |scans|, |scans|) <==>
            FalsyCount(scans, |scans|) <= 1
  {
    if FalsyCount(scans, |scans|) <= 1 {
      SameLists(scans, registered, |scans|);
    } else {
      FalsyAreDropped(scans, registered, |scans|);
    }
  }

  /** A handoff with all seven fields. */
  function WithId(id: Json): Fields
  {
    map["handoff_id" := id, "run_id" := Str("r"), "step" := Str("01"), "from_agent" := Str("a"),
        "to_agent" := Str("b"), "created_at" := Str("t"), "status" := Str("PENDING")]
  }

  lemma WithIdIsComplete(id: Json)
    requires id != Null && id != Str("")
    ensures Complete(WithId(id)) && WithId(id)["handoff_id"] == id
  {
    forall k | k in REQUIRED ensures k in WithId(id) && WithId(id)[k] != Null && WithId(id)[k] != Str("") {
      var i :| 0 <= i < |REQUIRED| && REQUIRED[i] == k;
    }
  }

  /** Two handoffs, with the ids `false` and `0`: both are candidates, and the final filter drops both. */
  lemma FalseAndZeroAreDropped(p: string, q: string)
    ensures var scans := [Scan(p, WithId(Bool(false))), Scan(q, WithId(Num(0)))];
            !Raises(scans) && StagedList(scans, {}, 2, 2) == scans && AcceptedList(scans, {}, 2) == []
  {
    var scans := [Scan(p, WithId(Bool(false))), Scan(q, WithId(Num(0)))];
    WithIdIsComplete(Bool(false));
    WithIdIsComplete(Num(0));
    assert FalsyId(scans[0].doc) && FalsyId(scans[1].doc);
    assert FalsyCount(scans, 0) == 0 && FalsyCount(scans, 1) == 1 && FalsyCount(scans, 2) == 2;
    assert forall i: nat | i < 2 :: !HasId(scans[i].doc) && Staged(scans, {}, 2, i);
    assert StagedList(scans, {}, 2, 0) == [] && StagedList(scans, {}, 2, 1) == [scans[0]];
    assert forall i: nat | i < 2 :: !Accepted(scans, {}, i);
    assert AcceptedList(scans, {}, 0) == [] && AcceptedList(scans, {}, 1) == [];
  }

  lemma {:induction false} FalsyAreDropped(scans: seq<Scan>, registered: set<Json>, m: nat)
    requires m <= |scans| && FalsyCount(scans, |scans|) > 1
    ensures |AcceptedList(scans, registered, m)| + FalsyCount(scans, m) == |StagedList(scans, registered, |scans|, m)|
  {
    if m > 0 {
      FalsyAreDropped(scans, registered, m - 1);
      assert FalsyId(scans[m - 1].doc) ==> Staged(scans, registered, |scans|, m - 1);
    }
  }

  lemma {:induction false} SameLists(scans: seq<Scan>, registered: set<Json>, m: nat)
    requires m <= |scans| && FalsyCount(scans, |scans|) <= 1
    ensures AcceptedList(scans, registered, m) == StagedList(scans, registered, |scans|, m)
  {
    if m > 0 {
      SameLists(scans, registered, m - 1);
      if FalsyId(scans[m - 1].doc) { FalsyCounted(scans, m - 1, |scans|); }
    }
  }

  lemma {:induction false} FalsyCounted(scans: seq<Scan>, i: nat, m: nat)
    requires i < m <= |scans| && FalsyId(scans[i].doc)
    ensures FalsyCount(scans, m) >= 1
  {
    if i < m - 1 { FalsyCounted(scans, i, m - 1); }
  }

  lemma StagedHashable(scans: seq<Scan>, registered: set<Json>)
    requires ScanOk(scans, |scans|)
    ensures Raises(scans) <==> !AllHashable(StagedList(scans, registered, |scans|, |scans|))
  {
    if Raises(scans) {
      var i: nat :| i < |scans| && RaisesAt(scans, i);
      StagedMember(scans, registered, |scans|, i);
    } else {
      StagedAllHashable(scans, registered, |scans|);
    }
  }

  lemma {:induction false} StagedMember(scans: seq<Scan>, registered: set<Json>, m: nat, i: nat)
    requires i < m <= |scans| && Staged(scans, registered, |scans|, i)
    ensures scans[i] in StagedList(scans, registered, |scans|, m)
  {
    if i < m - 1 { StagedMember(scans, registered, m - 1, i); }
  }

  lemma {:induction false} StagedAllHashable(scans: seq<Scan>, registered: set<Json>, m: nat)
    requires m <= |scans| && !Raises(scans)
    ensures AllHashable(StagedList(scans, registered, |scans|, m))
  {
    if m > 0 {
      StagedAllHashable(scans, registered, m - 1);
      NotRaising(scans, m - 1);
    }
  }

  /** The whole computation of the new entries. */
  method NewEntries(registered: set<Json>, scans: seq<Scan>) returns (r: Option<seq<Scan>>)
    ensures r.None? <==> Raises(scans)
    ensures r.Some? ==> r.value == AcceptedList(scans, registered, |scans|)
  {
    var staged := Stage(registered, scans);
    if staged.None? {
      var i: nat :| i < |scans| && TruthyBad(scans[i].doc);
      assert RaisesAt(scans, i);
      return None;
    }
    StagedHashable(scans, registered);
    r := DropDuplicates(staged.value);
    if r.Some? { AcceptedExactly(scans, registered, |scans|); }
  }
}
