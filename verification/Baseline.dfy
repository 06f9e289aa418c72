/** The handoff linter over a corpus, and the baseline that acknowledges its findings. */
module Baseline {
  import opened Registry
  import opened Handoffs
  import opened HandoffLint
  import opened HandoffRules
  import opened MatchingKeys
  import opened Orders
  import opened Sorting
  import Backfill

  /** A file as the walk meets it: its path, the name of its directory, whether it starts with a byte order mark, and
      its JSON value, or else the error of reading or parsing it. */
  datatype LintFile = LintFile(path: string, folder: string, hadBom: bool, parsed: Option<Json>, error: string)

  /** A parsed handoff and the run it belongs to. */
  datatype Doc = Doc(entry: Entry, run: Json)

  function RunOf(doc: Fields, folder: string): Json
  {
    if "run_id" in doc && Backfill.Truthy(doc["run_id"]) then doc["run_id"] else Str(folder)
  }

  function DocOf(f: LintFile): Option<Doc>
  {
    match f.parsed
    case Some(Obj(o)) => Some(Doc(Entry(f.path, o), RunOf(o, f.folder)))
    case _ => None
  }

  function Docs(files: seq<LintFile>): seq<Doc>
  {
    if files == [] then [] else
    Docs(files[..|files| - 1]) + match DocOf(files[|files| - 1]) { case Some(d) => [d] case None => [] }
  }

  // ---- runs ------------------------------------------------------------------------------------------------

  /** The first run with this id, or the number of runs. */
  function Slot(runs: seq<Run>, id: Json): (i: nat)
    ensures i <= |runs|
    ensures i < |runs| ==> Backfill.Key(runs[i].id) == Backfill.Key(id)
    ensures forall k | 0 <= k < i :: Backfill.Key(runs[k].id) != Backfill.Key(id)
  {
    if runs == [] || Backfill.Key(runs[0].id) == Backfill.Key(id) then 0 else 1 + Slot(runs[1..], id)
  }

  /** `runs.setdefault(id, []).append(entry)`; the dict keeps the id it saw first. */
  function AddTo(runs: seq<Run>, d: Doc): seq<Run>
  {
    var i := Slot(runs, d.run);
    if i < |runs| then runs[i := Run(runs[i].id, runs[i].entries + [d.entry])] else runs + [Run(d.run, [d.entry])]
  }

  function RunsOf(docs: seq<Doc>): seq<Run>
  {
    if docs == [] then [] else AddTo(RunsOf(docs[..|docs| - 1]), docs[|docs| - 1])
  }

  /** The handoffs whose run has this key, in walk order. */
  function Group(docs: seq<Doc>, key: Json): seq<Entry>
  {
    if docs == [] then [] else
    Group(docs[..|docs| - 1], key) +
    var d := docs[|docs| - 1]; if Backfill.Key(d.run) == key then [d.entry] else []
  }

  ghost predicate RunFits(docs: seq<Doc>, r: Run)
  {
    r.entries == Group(docs, Backfill.Key(r.id)) && exists d :: d in docs && d.run == r.id
  }

  ghost predicate HasRun(runs: seq<Run>, key: Json) { exists r :: r in runs && Backfill.Key(r.id) == key }

  lemma {:induction false} GroupEmpty(docs: seq<Doc>, key: Json)
    requires forall d | d in docs :: Backfill.Key(d.run) != key
    ensures Group(docs, key) == []
  {
    if docs != [] {
      assert docs[|docs| - 1] in docs;
      GroupEmpty(docs[..|docs| - 1], key);
    }
  }

  /** Every run holds exactly the handoffs of its id, and every handoff has its run. */
  lemma {:induction false} RunsOfMeaning(docs: seq<Doc>)
    ensures forall r | r in RunsOf(docs) :: RunFits(docs, r)
    ensures forall d | d in docs :: HasRun(RunsOf(docs), Backfill.Key(d.run))
    ensures forall a, b | 0 <= a < b < |RunsOf(docs)| ::
            Backfill.Key(RunsOf(docs)[a].id) != Backfill.Key(RunsOf(docs)[b].id)
  {
    if docs != [] {
      var ds, d := docs[..|docs| - 1], docs[|docs| - 1];
      RunsOfMeaning(ds);
      AddToMeaning(ds, RunsOf(ds), d);
      assert docs == ds + [d];
    }
  }

  lemma AddToMeaning(ds: seq<Doc>, runs: seq<Run>, d: Doc)
    requires forall r | r in runs :: RunFits(ds, r)
    requires forall x | x in ds :: HasRun(runs, Backfill.Key(x.run))
    requires forall a, b | 0 <= a < b < |runs| :: Backfill.Key(runs[a].id) != Backfill.Key(runs[b].id)
    ensures forall r | r in AddTo(runs, d) :: RunFits(ds + [d], r)
    ensures forall x | x in ds + [d] :: HasRun(AddTo(runs, d), Backfill.Key(x.run))
    ensures forall a, b | 0 <= a < b < |AddTo(runs, d)| ::
              Backfill.Key(AddTo(runs, d)[a].id) != Backfill.Key(AddTo(runs, d)[b].id)
  {
    var rs, i := AddTo(runs, d), Slot(runs, d.run);
    forall k | 0 <= k < |rs| ensures RunFits(ds + [d], rs[k]) {
      AddedRunFits(ds, runs, d, k);
    }
    forall x | x in ds + [d] ensures HasRun(rs, Backfill.Key(x.run)) {
      if x in ds {
        var r :| r in runs && Backfill.Key(r.id) == Backfill.Key(x.run);
        var k :| 0 <= k < |runs| && runs[k] == r;
        assert rs[k] in rs && rs[k].id == r.id;
      } else {
        assert rs[i] in rs;
      }
    }
  }

  lemma AddedRunFits(ds: seq<Doc>, runs: seq<Run>, d: Doc, k: nat)
    requires k < |AddTo(runs, d)| && forall r | r in runs :: RunFits(ds, r)
    requires forall x | x in ds :: HasRun(runs, Backfill.Key(x.run))
    requires forall a, b | 0 <= a < b < |runs| :: Backfill.Key(runs[a].id) != Backfill.Key(runs[b].id)
    ensures RunFits(ds + [d], AddTo(runs, d)[k])
  {
    assert (ds + [d])[..|ds|] == ds;
    if k < |runs| {
      assert runs[k] in runs && RunFits(ds, runs[k]);
      var x :| x in ds && x.run == runs[k].id;
      assert x in ds + [d] && x.run == AddTo(runs, d)[k].id;
      SlotOnly(runs, d.run, k);
    } else {
      NoRunNoGroup(ds, runs, d);
      assert d in ds + [d];
    }
  }

  lemma SlotOnly(runs: seq<Run>, id: Json, k: nat)
    requires k < |runs|
    requires forall a, b | 0 <= a < b < |runs| :: Backfill.Key(runs[a].id) != Backfill.Key(runs[b].id)
    ensures k == Slot(runs, id) <==> Backfill.Key(runs[k].id) == Backfill.Key(id)
  {
    var i := Slot(runs, id);
    assert i < k ==> Backfill.Key(runs[i].id) != Backfill.Key(runs[k].id);
  }

  lemma NoRunNoGroup(ds: seq<Doc>, runs: seq<Run>, d: Doc)
    requires forall x | x in ds :: HasRun(runs, Backfill.Key(x.run))
    requires Slot(runs, d.run) == |runs|
    ensures Group(ds, Backfill.Key(d.run)) == []
  {
    forall x | x in ds ensures Backfill.Key(x.run) != Backfill.Key(d.run) {
      var r :| r in runs && Backfill.Key(r.id) == Backfill.Key(x.run);
      var k :| 0 <= k < |runs| && runs[k] == r;
    }
    GroupEmpty(ds, Backfill.Key(d.run));
  }

  // ---- findings --------------------------------------------------------------------------------------------

  /** What H001 says of a file that is no object. The code tells a missing value by its being None, as JSON's null is.
      */
  function Unusable(env: Env, f: LintFile): string
  {
    match f.parsed
    case None => env.unparseable(Some(f.error))
    case Some(Null) => env.unparseable(None)
    case Some(_) => env.notObject
  }

  function FileFindings(env: Env, f: LintFile): seq<Finding>
  {
    (if f.hadBom then [Found(H008, Major, f.path, env.bom)] else []) +
    match f.parsed
    case Some(Obj(o)) => DocFindings(env, o, f.path)
    case _ => [Found(H001, Blocker, f.path, Unusable(env, f))]
  }

  function FilePart(env: Env): LintFile -> seq<Finding> { x => FileFindings(env, x) }

  function ScanFindings(env: Env, files: seq<LintFile>): seq<Finding> { Flat(files, FilePart(env)) }

  /** All findings; `others` are those of the registry and the log. */
  function LintFindings(env: Env, files: seq<LintFile>, others: seq<Finding>): seq<Finding>
  {
    var runs := RunsOf(Docs(files));
    ScanFindings(env, files) + OrphanFindings(env, runs) + SkewFindings(env, runs) + others
  }

  // ---- what is promised, in terms of the files -------------------------------------------------------------

  /** The file carries the finding, leaving aside its run. */
  ghost predicate FileDeserves(env: Env, x: LintFile, f: Finding)
  {
    if f.code == H008 then f == Finding(H008, Major, x.path, env.bom, []) && x.hadBom
    else if f.code == H001 then
      && f.severity == Blocker && f.path == x.path && f.later == [] && NotAnObject(x)
      && (x.parsed == None ==> f.message == env.unparseable(Some(x.error)))
      && (x.parsed == Some(Null) ==> f.message == env.unparseable(None))
      && (x.parsed != None && x.parsed != Some(Null) ==> f.message == env.notObject)
    else !NotAnObject(x) && Deserves(env, x.parsed.value.fields, x.path, f)
  }

  ghost predicate NotAnObject(x: LintFile) { x.parsed == None || !x.parsed.value.Obj? }

  lemma FileFindingsExactly(env: Env, x: LintFile, f: Finding)
    ensures f in FileFindings(env, x) <==> FileDeserves(env, x, f)
  {
    if !NotAnObject(x) {
      DocFindingsExactly(env, x.parsed.value.fields, x.path, f);
      DocFindingsMeaning(env, x.parsed.value.fields, x.path);
    }
  }

  /** The same with multiplicity and in order. */
  ghost function DueInFile(env: Env, x: LintFile): seq<Finding>
  {
    (if x.hadBom then [Finding(H008, Major, x.path, env.bom, [])] else []) +
    if !NotAnObject(x) then DueFindings(env, x.parsed.value.fields, x.path)
    else if x.parsed == None then [Finding(H001, Blocker, x.path, env.unparseable(Some(x.error)), [])]
    else if x.parsed == Some(Null) then [Finding(H001, Blocker, x.path, env.unparseable(None), [])]
    else [Finding(H001, Blocker, x.path, env.notObject, [])]
  }

  ghost function DueInFiles(env: Env, files: seq<LintFile>): seq<Finding>
  {
    if files == [] then [] else DueInFiles(env, files[..|files| - 1]) + DueInFile(env, files[|files| - 1])
  }

  lemma FileFindingsAreDue(env: Env, x: LintFile)
    ensures FileFindings(env, x) == DueInFile(env, x)
  {
    if !NotAnObject(x) { DocFindingsAreDue(env, x.parsed.value.fields, x.path); }
  }

  lemma {:induction false} ScanFindingsAreDue(env: Env, files: seq<LintFile>)
    ensures ScanFindings(env, files) == DueInFiles(env, files)
  {
    if files != [] {
      ScanFindingsAreDue(env, files[..|files| - 1]);
      FileFindingsAreDue(env, files[|files| - 1]);
    }
  }

  /** The handoff counts for the run: by its run id, or by its folder if that id is missing or falsy. */
  ghost predicate CountsFor(x: LintFile, id: Json)
  {
    && !NotAnObject(x)
    && var doc := x.parsed.value.fields;
       if "run_id" in doc && Backfill.PythonTrue(doc["run_id"]) then Backfill.EqualIds(doc["run_id"], id)
       else Backfill.EqualIds(Str(x.folder), id)
  }

  /** The run holds the handoffs that count for it, in walk order, and has at least one. */
  ghost predicate IsRun(files: seq<LintFile>, r: Run)
  {
    exists at: seq<nat> :: at != [] && CountedAt(files, at, r.id) && HandoffsAt(files, at, r.entries)
  }

  /** `at` are the positions of the files that count for the run, in order. */
  ghost predicate CountedAt(files: seq<LintFile>, at: seq<nat>, id: Json)
  {
    Increasing(at) && forall i: nat :: i in at <==> CountsAt(files, i, id)
  }

  ghost predicate CountsAt(files: seq<LintFile>, i: nat, id: Json) { i < |files| && CountsFor(files[i], id) }

  ghost predicate HandoffsAt(files: seq<LintFile>, at: seq<nat>, entries: seq<Entry>)
  {
    |at| == |entries| &&
    forall k | 0 <= k < |at| :: at[k] < |files| && files[at[k]].path == entries[k].path &&
                                files[at[k]].parsed == Some(Obj(entries[k].doc))
  }

  lemma CountsMeaning(x: LintFile, id: Json)
    ensures CountsFor(x, id) <==> DocOf(x).Some? && Backfill.Key(DocOf(x).value.run) == Backfill.Key(id)
  {
    if DocOf(x).Some? {
      var doc := x.parsed.value.fields;
      if "run_id" in doc {
        Backfill.TruthMeaning(doc["run_id"]);
        Backfill.KeyMeaning(doc["run_id"], id);
      }
      Backfill.KeyMeaning(Str(x.folder), id);
    }
  }

  lemma GroupStep(files: seq<LintFile>, id: Json)
    requires files != []
    ensures var init, last := files[..|files| - 1], files[|files| - 1];
            Group(Docs(files), Backfill.Key(id)) ==
            Group(Docs(init), Backfill.Key(id)) + if CountsFor(last, id) then [DocOf(last).value.entry] else []
  {
    var init, last := files[..|files| - 1], files[|files| - 1];
    var docs, key := Docs(init), Backfill.Key(id);
    CountsMeaning(last, id);
    if DocOf(last).Some? {
      var d := DocOf(last).value;
      assert (docs + [d])[..|docs|] == docs;
    } else {
      assert docs + [] == docs && Group(docs, key) + [] == Group(docs, key);
    }
  }

  lemma CountedStep(files: seq<LintFile>, at: seq<nat>, id: Json)
    requires files != [] && CountedAt(files[..|files| - 1], at, id)
    ensures CountedAt(files, if CountsFor(files[|files| - 1], id) then at + [|files| - 1] else at, id)
  {
    var n := |files| - 1;
    forall k | 0 <= k < |at| ensures at[k] < n { assert at[k] in at && CountsAt(files[..n], at[k], id); }
    forall i: nat
      ensures CountsAt(files, i, id) <==> CountsAt(files[..n], i, id) || (i == n && CountsFor(files[n], id))
    {
      assert i < n ==> files[..n][i] == files[i];
    }
  }

  lemma HandoffsStep(files: seq<LintFile>, at: seq<nat>, entries: seq<Entry>, id: Json)
    requires files != [] && HandoffsAt(files[..|files| - 1], at, entries)
    ensures HandoffsAt(files, at, entries)
    ensures var n := |files| - 1;
            CountsFor(files[n], id) ==> HandoffsAt(files, at + [n], entries + [DocOf(files[n]).value.entry])
  {
    var n := |files| - 1;
    assert HandoffsAt(files, at, entries);
    if CountsFor(files[n], id) {
      var e := DocOf(files[n]).value.entry;
      assert files[n].path == e.path && files[n].parsed == Some(Obj(e.doc));
    }
  }

  /** `at` are the positions of the group of the run. */
  ghost predicate GroupAt(files: seq<LintFile>, at: seq<nat>, id: Json)
  {
    CountedAt(files, at, id) && HandoffsAt(files, at, Group(Docs(files), Backfill.Key(id)))
  }

  lemma GroupAtStep(files: seq<LintFile>, at: seq<nat>, id: Json)
    requires files != [] && GroupAt(files[..|files| - 1], at, id)
    ensures GroupAt(files, if CountsFor(files[|files| - 1], id) then at + [|files| - 1] else at, id)
  {
    var entries := Group(Docs(files[..|files| - 1]), Backfill.Key(id));
    CountedStep(files, at, id);
    HandoffsStep(files, at, entries, id);
    GroupStep(files, id);
    assert entries + [] == entries;
  }

  lemma {:induction false} GroupsCount(files: seq<LintFile>, id: Json) returns (at: seq<nat>)
    ensures GroupAt(files, at, id)
  {
    if files == [] { return []; }
    at := GroupsCount(files[..|files| - 1], id);
    GroupAtStep(files, at, id);
    if CountsFor(files[|files| - 1], id) { at := at + [|files| - 1]; }
  }

  /** The runs of a corpus: each is one, every handoff counts for one, and no handoff counts for two. */
  ghost predicate RunsOfFiles(files: seq<LintFile>, runs: seq<Run>)
  {
    && (forall r | r in runs :: IsRun(files, r))
    && (forall x | x in files && !NotAnObject(x) :: exists r :: r in runs && CountsFor(x, r.id))
    && forall a, b | 0 <= a < b < |runs| :: !Backfill.EqualIds(runs[a].id, runs[b].id)
  }

  lemma RunsExactly(files: seq<LintFile>)
    ensures RunsOfFiles(files, RunsOf(Docs(files)))
  {
    var docs := Docs(files);
    var runs := RunsOf(docs);
    RunsOfMeaning(docs);
    DocsMeaning(files);
    forall r | r in runs ensures IsRun(files, r) {
      assert RunFits(docs, r);
      RunHoldsItsHandoffs(files, r);
    }
    forall x | x in files && !NotAnObject(x) ensures exists r :: r in runs && CountsFor(x, r.id) {
      assert DocOf(x).value in docs;
      var r :| r in runs && Backfill.Key(r.id) == Backfill.Key(DocOf(x).value.run);
      CountsMeaning(x, r.id);
    }
    forall a, b | 0 <= a < b < |runs| ensures !Backfill.EqualIds(runs[a].id, runs[b].id) {
      Backfill.KeyMeaning(runs[a].id, runs[b].id);
    }
  }

  lemma RunHoldsItsHandoffs(files: seq<LintFile>, r: Run)
    requires RunFits(Docs(files), r)
    ensures IsRun(files, r)
  {
    var at := GroupsCount(files, r.id);
    DocsMeaning(files);
    var d :| d in Docs(files) && d.run == r.id;
    var x :| x in files && DocOf(x) == Some(d);
    CountsMeaning(x, r.id);
    var i :| 0 <= i < |files| && files[i] == x;
    assert CountsAt(files, i, r.id);
  }

  /** A status that cannot be looked up. */
  ghost predicate HasListStatus(e: Entry) { "status" in e.doc && (e.doc["status"].Arr? || e.doc["status"].Obj?) }

  /** Run by run, the orphaned handoffs of each. */
  ghost predicate OrphansReported(env: Env, runs: seq<Run>, fs: seq<Finding>)
  {
    if runs == [] then fs == [] else
    exists before, last :: fs == before + last && OrphansReported(env, runs[..|runs| - 1], before) &&
                           OrphanReport(env, runs[|runs| - 1], last)
  }

  lemma {:induction false} OrphansExactly(env: Env, runs: seq<Run>)
    ensures OrphansReported(env, runs, OrphanFindings(env, runs))
  {
    if runs != [] {
      OrphansExactly(env, runs[..|runs| - 1]);
      OrphansAreReported(env, runs[|runs| - 1]);
    }
  }

  /** Run by run, the clock skew of each. */
  ghost predicate SkewReported(env: Env, runs: seq<Run>, fs: seq<Finding>)
  {
    if runs == [] then fs == [] else
    exists before, last :: fs == before + last && SkewReported(env, runs[..|runs| - 1], before) &&
                           SkewReport(env, runs[|runs| - 1].entries, last)
  }

  lemma {:induction false} SkewsExactly(env: Env, runs: seq<Run>)
    ensures SkewReported(env, runs, SkewFindings(env, runs))
  {
    if runs != [] {
      SkewsExactly(env, runs[..|runs| - 1]);
      SkewIsReported(env, runs[|runs| - 1].entries);
    }
  }

  /** The findings of a corpus: those of its files, of the orphans and of the clock skew of every run, and `others`. */
  ghost predicate AllFindings(env: Env, files: seq<LintFile>, others: seq<Finding>, all: seq<Finding>)
  {
    exists runs, orphans, skew ::
      && RunsOfFiles(files, runs) && OrphansReported(env, runs, orphans) && SkewReported(env, runs, skew)
      && all == DueInFiles(env, files) + orphans + skew + others
  }

  ghost predicate OnFile(baseline: seq<Issue>, f: Finding) { exists i :: i in baseline && i.key == MatchingKey(f) }

  /** Every finding is acknowledged if the baseline has its key, and remains otherwise, with its multiplicity. */
  ghost predicate Divided(all: seq<Finding>, baseline: seq<Issue>, remaining: seq<Finding>, acknowledged: seq<Finding>)
  {
    && multiset(remaining) + multiset(acknowledged) == multiset(all)
    && (forall f | f in remaining :: !OnFile(baseline, f))
    && forall f | f in acknowledged :: OnFile(baseline, f)
  }

  ghost predicate LintedAsPromised(env: Env, files: seq<LintFile>, others: seq<Finding>, baseline: seq<Issue>,
                                   remaining: seq<Finding>, acknowledged: seq<Finding>)
  {
    exists all :: AllFindings(env, files, others, all) && Divided(all, baseline, remaining, acknowledged)
  }

  lemma FilterDivides(all: seq<Finding>, baseline: seq<Issue>)
    ensures Divided(all, baseline, Remaining(all, KeysOf(baseline)), Acknowledged(all, KeysOf(baseline)))
  {
    var keys := KeysOf(baseline);
    FilterSplits(all, Unknown(keys), Known(keys));
    forall f ensures OnFile(baseline, f) <==> MatchingKey(f) in keys {}
    forall f | f in Remaining(all, keys) ensures !OnFile(baseline, f) { FilterMembers(all, Unknown(keys), f); }
    forall f | f in Acknowledged(all, keys) ensures OnFile(baseline, f) { FilterMembers(all, Known(keys), f); }
  }

  lemma LintExactly(env: Env, files: seq<LintFile>, others: seq<Finding>, baseline: seq<Issue>)
    ensures var all := LintFindings(env, files, others);
            LintedAsPromised(env, files, others, baseline, Remaining(all, KeysOf(baseline)),
                             Acknowledged(all, KeysOf(baseline)))
  {
    var all, runs := LintFindings(env, files, others), RunsOf(Docs(files));
    RunsExactly(files);
    OrphansExactly(env, runs);
    SkewsExactly(env, runs);
    ScanFindingsAreDue(env, files);
    assert AllFindings(env, files, others, all);
    FilterDivides(all, baseline);
  }

  ghost predicate IsList(v: Json) { v.Arr? || v.Obj? }

  /** Some value that is hashed is a list or an object: the status, `result.status`, or a non-empty id. */
  ghost predicate CannotBeLinted(x: LintFile)
  {
    && !NotAnObject(x)
    && var doc := x.parsed.value.fields;
       || ("status" in doc && IsList(doc["status"]))
       || ("result" in doc && doc["result"].Obj? && "status" in doc["result"].fields &&
           IsList(doc["result"].fields["status"]))
       || ("handoff_id" in doc && IsList(doc["handoff_id"]) && Backfill.PythonTrue(doc["handoff_id"]))
       || ("run_id" in doc && IsList(doc["run_id"]) && Backfill.PythonTrue(doc["run_id"]))
  }

  lemma CannotBeLintedMeaning(x: LintFile)
    ensures CannotBeLinted(x) <==>
            DocOf(x).Some? && (ScanRaises(DocOf(x).value) || StatusRaises(DocOf(x).value.entry))
  {
    if DocOf(x).Some? {
      var doc := x.parsed.value.fields;
      if "handoff_id" in doc { Backfill.TruthMeaning(doc["handoff_id"]); }
      if "run_id" in doc { Backfill.TruthMeaning(doc["run_id"]); }
    }
  }

  lemma LintRaisesExactly(files: seq<LintFile>)
    ensures LintRaises(files) <==> exists x :: x in files && CannotBeLinted(x)
  {
    DocsMeaning(files);
    forall x: LintFile
      ensures CannotBeLinted(x) <==>
              DocOf(x).Some? && (ScanRaises(DocOf(x).value) || StatusRaises(DocOf(x).value.entry))
    {
      CannotBeLintedMeaning(x);
    }
    if x :| x in files && CannotBeLinted(x) { assert DocOf(x).value in Docs(files); }
  }

  /** The generator looks up the same values but for the handoff ids. */
  ghost predicate CannotBeRecorded(x: LintFile)
  {
    && !NotAnObject(x)
    && var doc := x.parsed.value.fields;
       || ("status" in doc && IsList(doc["status"]))
       || ("result" in doc && doc["result"].Obj? && "status" in doc["result"].fields &&
           IsList(doc["result"].fields["status"]))
       || ("run_id" in doc && IsList(doc["run_id"]) && Backfill.PythonTrue(doc["run_id"]))
  }

  lemma CannotBeRecordedMeaning(x: LintFile)
    ensures CannotBeRecorded(x) <==>
            DocOf(x).Some? && (RecordRaises(DocOf(x).value) || StatusRaises(DocOf(x).value.entry))
  {
    if DocOf(x).Some? {
      var doc := x.parsed.value.fields;
      if "run_id" in doc { Backfill.TruthMeaning(doc["run_id"]); }
    }
  }

  lemma GenerateRaisesExactly(files: seq<LintFile>)
    ensures GenerateRaises(files) <==> exists x :: x in files && CannotBeRecorded(x)
  {
    DocsMeaning(files);
    forall x: LintFile
      ensures CannotBeRecorded(x) <==>
              DocOf(x).Some? && (RecordRaises(DocOf(x).value) || StatusRaises(DocOf(x).value.entry))
    {
      CannotBeRecordedMeaning(x);
    }
    if x :| x in files && CannotBeRecorded(x) { assert DocOf(x).value in Docs(files); }
  }

  predicate Hashable(v: Option<Json>) { v.None? || !Unhashable(v.value) }

  /** Scanning the handoff raises TypeError: its result status, its id or its run id cannot be hashed. */
  predicate ScanRaises(d: Doc)
  {
    ResultRaises(d.entry.doc) || (Backfill.HasId(d.entry.doc) && Backfill.BadId(d.entry.doc)) || Unhashable(d.run)
  }

  predicate StatusRaises(e: Entry) { !Hashable(Status(e.doc)) }

  predicate RunHashable(r: Run) { forall e | e in r.entries :: !StatusRaises(e) }

  predicate AllHashable(runs: seq<Run>) { forall k | 0 <= k < |runs| :: RunHashable(runs[k]) }

  predicate ScansWell(docs: seq<Doc>) { forall d | d in docs :: !ScanRaises(d) }

  /** The linter raises TypeError. */
  ghost predicate LintRaises(files: seq<LintFile>)
  {
    exists d :: d in Docs(files) && (ScanRaises(d) || StatusRaises(d.entry))
  }

  /** The generator raises TypeError; it does not look at the handoff ids. */
  predicate RecordRaises(d: Doc) { ResultRaises(d.entry.doc) || Unhashable(d.run) }

  ghost predicate GenerateRaises(files: seq<LintFile>)
  {
    exists d :: d in Docs(files) && (RecordRaises(d) || StatusRaises(d.entry))
  }

  // ---- the baseline ----------------------------------------------------------------------------------------

  /** What a baseline is for. */
  predicate Covered(c: Code) { c in {H003, H004, H005, H009} }

  /** A baseline entry, in the generator's field order. */
  datatype Issue =
    Issue(file: string, code: Code, key: string, reason: Code, acknowledgedAt: string, acknowledgedBy: string)

  /** When and by whom a baseline is generated. */
  datatype Stamp = Stamp(now: string, author: string)

  function IssueOf(f: Finding, stamp: Stamp): Issue
  {
    Issue(f.path, f.code, MatchingKey(f), f.code, stamp.now, stamp.author)
  }

  predicate TimeCode(c: Code) { c == H003 || c == H004 || c == H005 }

  const IS_TIME: Finding -> bool := (f: Finding) => TimeCode(f.code)

  function TimeFilter(fs: seq<Finding>): seq<Finding> { Filter(fs, IS_TIME) }

  function TimePart(env: Env): Doc -> seq<Finding>
  {
    (d: Doc) => TimeFilter(DocFindings(env, d.entry.doc, d.entry.path))
  }

  /** `scan_h003_h004_h005`. */
  function Scan345(env: Env, docs: seq<Doc>): seq<Finding> { Flat(docs, TimePart(env)) }

  /** What the generator records. */
  function Recorded(env: Env, files: seq<LintFile>): seq<Finding>
  {
    var docs := Docs(files);
    Scan345(env, docs) + OrphanFindings(env, RunsOf(docs))
  }

  function IssuesOf(fs: seq<Finding>, stamp: Stamp): (r: seq<Issue>)
    ensures |r| == |fs| && forall i | 0 <= i < |fs| :: r[i] == IssueOf(fs[i], stamp)
  {
    seq(|fs|, i requires 0 <= i < |fs| => IssueOf(fs[i], stamp))
  }

  /** By code, then file, then key. */
  predicate IssueLeq(a: Issue, b: Issue)
  {
    if a.code != b.code then CodeNumber(a.code) < CodeNumber(b.code)
    else if a.file != b.file then StrLeq(a.file, b.file)
    else StrLeq(a.key, b.key)
  }

  const BY_CODE_FILE_KEY: (Issue, Issue) -> bool := (a, b) => IssueLeq(a, b)

  lemma IssuesAreRanked()
    ensures Ranks(BY_CODE_FILE_KEY)
  {
    forall a, b ensures BY_CODE_FILE_KEY(a, b) || BY_CODE_FILE_KEY(b, a) {
      CodeNumberInjective(a.code, b.code);
      StrTotal(a.file, b.file);
      StrTotal(a.key, b.key);
    }
    forall a, b, c | BY_CODE_FILE_KEY(a, b) && BY_CODE_FILE_KEY(b, c) ensures BY_CODE_FILE_KEY(a, c) {
      IssueLeqTransitive(a, b, c);
    }
  }

  lemma IssueLeqTransitive(a: Issue, b: Issue, c: Issue)
    requires IssueLeq(a, b) && IssueLeq(b, c)
    ensures IssueLeq(a, c)
  {
    if a.code == b.code == c.code {
      StrTotal(a.file, b.file);
      StrTotal(b.file, c.file);
      if a.file == b.file == c.file {
        StrTransitive(a.key, b.key, c.key);
      } else {
        if a.file != b.file && b.file != c.file { StrTransitive(a.file, b.file, c.file); }
      }
    }
  }

  /** What a baseline file lists. */
  function BaselineOf(env: Env, files: seq<LintFile>, stamp: Stamp): seq<Issue>
  {
    Sorted(BY_CODE_FILE_KEY, IssuesOf(Recorded(env, files), stamp))
  }

  /** `load_lint_handoffs_baseline`: the keys on file. */
  function KeysOf(issues: seq<Issue>): set<string> { set i | i in issues :: i.key }

  function Unknown(keys: set<string>): Finding -> bool { f => MatchingKey(f) !in keys }

  function Known(keys: set<string>): Finding -> bool { f => MatchingKey(f) in keys }

  /** What is left after filtering by the keys, and what is set aside. */
  function Remaining(fs: seq<Finding>, keys: set<string>): seq<Finding> { Filter(fs, Unknown(keys)) }

  function Acknowledged(fs: seq<Finding>, keys: set<string>): seq<Finding> { Filter(fs, Known(keys)) }

  /** The findings that no baseline covers, in place. */
  function Unscoped(fs: seq<Finding>): seq<Finding> { Filter(fs, IS_UNSCOPED) }

  const IS_UNSCOPED: Finding -> bool := (f: Finding) => !Covered(f.code)

  // ---- the linter ------------------------------------------------------------------------------------------

  class Linter {
    var findings: seq<Finding>

    constructor ()
      ensures findings == []
    {
      findings := [];
    }

    method Report(f: Finding)
      modifies this
      ensures findings == old(findings) + [f]
    {
      findings := findings + [f];
    }

    /** `_lint_parsed_handoff`. */
    method LintParsed(env: Env, doc: Fields, path: string) returns (ok: bool)
      modifies this
      ensures ok <==> !ResultRaises(doc)
      ensures ok ==> findings == old(findings) + DocFindings(env, doc, path)
      ensures ok ==> findings == old(findings) + DueFindings(env, doc, path)
    {
      ok := LintDoc(env, doc, path);
      DocFindingsAreDue(env, doc, path);
    }

    method LintDoc(env: Env, doc: Fields, path: string) returns (ok: bool)
      modifies this
      ensures ok <==> !ResultRaises(doc)
      ensures ok ==> findings == old(findings) + DocFindings(env, doc, path)
    {
      LintKeys(env, doc, path);
      LintTimes(env, doc, path);
      if ResultRaises(doc) { return false; }
      LintResult(env, doc, path);
      return true;
    }

    method LintKeys(env: Env, doc: Fields, path: string)
      modifies this
      ensures findings == old(findings) + MissingKeys(env, doc, path, |Backfill.REQUIRED|)
    {
      var n := 0;
      while n < |Backfill.REQUIRED|
        invariant n <= |Backfill.REQUIRED|
        invariant findings == old(findings) + MissingKeys(env, doc, path, n)
      {
        var key := Backfill.REQUIRED[n];
        if key !in doc { Report(Found(H007, Major, path, env.missing(key))); }
        n := n + 1;
      }
    }

    method LintTimes(env: Env, doc: Fields, path: string)
      modifies this
      ensures findings == old(findings) + TimeFindings(env, doc, path)
    {
      var created, started, completed := Field(doc, "created_at"), Field(doc, "started_at"), Field(doc, "completed_at");
      if Backwards(env.digits, completed, started) {
        Report(Found(H003, Blocker, path, env.backwards(StampText(completed), StampText(started))));
      }
      if Backwards(env.digits, started, created) {
        Report(Found(H004, Blocker, path, env.early(StampText(started), StampText(created))));
      }
      if Completed(doc) && Unset(completed) { Report(Found(H005, Blocker, path, env.unset)); }
    }

    method LintResult(env: Env, doc: Fields, path: string)
      modifies this
      ensures findings == old(findings) + ResultFindings(env, doc, path)
    {
      var result := Field(doc, "result");
      if result.Some? && result.value.Str? {
        Report(Found(H002, Blocker, path, env.resultString));
      } else if IllegalResult(doc) {
        Report(Found(H006, Blocker, path, env.illegal(ResultStatus(doc).value)));
      }
    }

    method LintBom(env: Env, f: LintFile)
      modifies this
      ensures findings == old(findings) + if f.hadBom then [Found(H008, Major, f.path, env.bom)] else []
    {
      if f.hadBom { Report(Found(H008, Major, f.path, env.bom)); }
    }

    /** `lint_handoff_file`: the handoff if there is one; None is the TypeError. */
    method LintFileAt(env: Env, f: LintFile) returns (r: Option<Option<Doc>>)
      modifies this
      ensures r.None? <==> DocOf(f).Some? && ResultRaises(DocOf(f).value.entry.doc)
      ensures r.Some? ==> r.value == DocOf(f) && findings == old(findings) + FileFindings(env, f)
    {
      LintBom(env, f);
      ghost var bom := if f.hadBom then [Found(H008, Major, f.path, env.bom)] else [];
      match f.parsed {
        case Some(Obj(o)) =>
          var ok := LintParsed(env, o, f.path);
          Regroup(old(findings), bom, DocFindings(env, o, f.path));
          return if ok then Some(Some(Doc(Entry(f.path, o), RunOf(o, f.folder)))) else None;
        case _ =>
          Report(Found(H001, Blocker, f.path, Unusable(env, f)));
          return Some(None);
      }
    }

    /** One file of the walk: lint it, then hash its id and its run id. */
    method ScanFile(env: Env, f: LintFile) returns (r: Option<Option<Doc>>)
      modifies this
      ensures r.None? <==> DocOf(f).Some? && ScanRaises(DocOf(f).value)
      ensures r.Some? ==> r.value == DocOf(f) && findings == old(findings) + FileFindings(env, f)
    {
      r := LintFileAt(env, f);
      if r.Some? && r.value.Some? && ScanRaises(r.value.value) { return None; }
    }

    /** The walk: lint every file and group the handoffs by run. */
    method ScanFiles(env: Env, files: seq<LintFile>) returns (runs: Option<seq<Run>>)
      modifies this
      ensures runs.Some? <==> ScansWell(Docs(files))
      ensures runs.Some? ==> runs.value == RunsOf(Docs(files))
      ensures runs.Some? ==> findings == old(findings) + ScanFindings(env, files)
    {
      var rs, n, before := [], 0, findings;
      ghost var done, docs := [], [];
      while n < |files|
        invariant n <= |files|
        invariant docs == Docs(files[..n]) && rs == RunsOf(docs) && ScansWell(docs)
        invariant findings == before + done && done == ScanFindings(env, files[..n])
      {
        var r := ScanFile(env, files[n]);
        DocsStep(files, n);
        ScansWellStep(files, n);
        if r.None? { return None; }
        FlatStep(files, FilePart(env), n);
        Regroup(before, done, FileFindings(env, files[n]));
        done := ScanFindings(env, files[..n + 1]);
        if r.value.Some? {
          RunsStep(docs, r.value.value);
          rs := AddTo(rs, r.value.value);
          docs := docs + [r.value.value];
        }
        n := n + 1;
      }
      assert files[..n] == files;
      return Some(rs);
    }

    /** `lint_orphans`; false is the TypeError. */
    method LintOrphans(env: Env, runs: seq<Run>) returns (ok: bool)
      modifies this
      ensures ok <==> AllHashable(runs)
      ensures ok <==> forall r, e | r in runs && e in r.entries :: !HasListStatus(e)
      ensures ok ==> findings == old(findings) + OrphanFindings(env, runs)
      ensures ok ==> exists fs :: OrphansReported(env, runs, fs) && findings == old(findings) + fs
    {
      ok := LintRuns(env, runs);
      OrphansExactly(env, runs);
      HashableMeaning(runs);
    }

    method LintRuns(env: Env, runs: seq<Run>) returns (ok: bool)
      modifies this
      ensures ok <==> AllHashable(runs)
      ensures ok ==> findings == old(findings) + OrphanFindings(env, runs)
    {
      var n, before := 0, findings;
      ghost var done := [];
      while n < |runs|
        invariant n <= |runs|
        invariant AllHashable(runs[..n])
        invariant findings == before + done && done == OrphanFindings(env, runs[..n])
      {
        HashableStep(runs, n);
        if !RunHashable(runs[n]) { return false; }
        LintRun(env, runs[n]);
        FlatStep(runs, OrphanPart(env), n);
        Regroup(before, done, OrphansOf(env, runs[n]));
        done := OrphanFindings(env, runs[..n + 1]);
        n := n + 1;
      }
      assert runs[..n] == runs;
      return true;
    }

    method LintRun(env: Env, run: Run)
      modifies this
      ensures findings == old(findings) + OrphansOf(env, run)
    {
      var es := Items(env, run.entries);
      LintOrdered(env, run.id, es, SortedSteps(es, |es|));
    }

    method LintOrdered(env: Env, id: Json, es: seq<Item>, order: seq<nat>)
      modifies this
      ensures findings == old(findings) + OrphansUpTo(env, id, es, order, |order|)
    {
      var p, before := 0, findings;
      ghost var done := [];
      while p < |order|
        invariant p <= |order|
        invariant findings == before + done && done == OrphansUpTo(env, id, es, order, p)
      {
        var i := order[p];
        if i < |es| && es[i].phase == Open {
          var later := Later(es, order, p);
          if later != [] { Report(OrphanFinding(env, id, es[i], later)); }
        }
        Regroup(before, done, OrphanAt(env, id, es, order, p));
        done := done + OrphanAt(env, id, es, order, p);
        p := p + 1;
      }
    }

    /** `lint_clock_skew`. */
    method LintClockSkew(env: Env, runs: seq<Run>)
      modifies this
      ensures findings == old(findings) + SkewFindings(env, runs)
      ensures exists fs :: SkewReported(env, runs, fs) && findings == old(findings) + fs
    {
      SkewsExactly(env, runs);
      var n, before := 0, findings;
      ghost var done := [];
      while n < |runs|
        invariant n <= |runs|
        invariant findings == before + done && done == SkewFindings(env, runs[..n])
      {
        LintSkewOf(env, runs[n].entries);
        FlatStep(runs, RunSkewPart(env), n);
        Regroup(before, done, SkewOf(env, runs[n].entries));
        done := done + SkewOf(env, runs[n].entries);
        n := n + 1;
      }
      assert runs[..n] == runs;
    }

    method LintSkewOf(env: Env, es: seq<Entry>)
      modifies this
      ensures findings == old(findings) + SkewOf(env, es)
    {
      var m, before := 0, findings;
      ghost var done := [];
      while m < |es|
        invariant m <= |es|
        invariant findings == before + done && done == SkewOf(env, es[..m])
      {
        LintSkew(env, es[m]);
        FlatStep(es, SkewPart(env), m);
        Regroup(before, done, SkewFinding(env, es[m]));
        done := done + SkewFinding(env, es[m]);
        m := m + 1;
      }
      assert es[..m] == es;
    }

    method LintSkew(env: Env, e: Entry)
      modifies this
      ensures findings == old(findings) + SkewFinding(env, e)
    {
      var gap := Gap(env, e.doc);
      if gap.Some? && WholeHours(env, gap.value) {
        Report(Found(H013, Blocker, e.path, env.skew(gap.value, Nearest(gap.value))));
      }
    }

    /** The baseline filter; returns what it set aside. */
    method ApplyBaseline(keys: set<string>) returns (acknowledged: seq<Finding>)
      modifies this
      ensures findings == Remaining(old(findings), keys)
      ensures acknowledged == Acknowledged(old(findings), keys)
    {
      var fs, remaining, n := findings, [], 0;
      acknowledged := [];
      while n < |fs|
        invariant n <= |fs|
        invariant remaining == Remaining(fs[..n], keys) && acknowledged == Acknowledged(fs[..n], keys)
      {
        FilterStep(fs, Unknown(keys), n);
        FilterStep(fs, Known(keys), n);
        if MatchingKey(fs[n]) in keys {
          acknowledged := acknowledged + [fs[n]];
        } else {
          remaining := remaining + [fs[n]];
        }
        n := n + 1;
      }
      assert fs[..n] == fs;
      findings := remaining;
    }

    /** The linter's main: scan, orphans, clock skew, the rest, and the baseline. */
    method Lint(env: Env, files: seq<LintFile>, others: seq<Finding>, baseline: seq<Issue>)
      returns (acknowledged: Option<seq<Finding>>)
      modifies this
      ensures acknowledged.None? <==> LintRaises(files)
      ensures acknowledged.Some? ==>
                findings == Remaining(LintFindings(env, files, others), KeysOf(baseline)) &&
                acknowledged.value == Acknowledged(LintFindings(env, files, others), KeysOf(baseline))
      ensures acknowledged.None? <==> exists x :: x in files && CannotBeLinted(x)
      ensures acknowledged.Some? ==> LintedAsPromised(env, files, others, baseline, findings, acknowledged.value)
    {
      LintRaisesExactly(files);
      LintExactly(env, files, others, baseline);
      findings := [];
      LintRaisesParts(files);
      var runs := ScanFiles(env, files);
      if runs.None? { return None; }
      NoPrefix(ScanFindings(env, files));
      var ok := LintOrphans(env, runs.value);
      if !ok { return None; }
      LintClockSkew(env, runs.value);
      findings := findings + others;
      var set_aside := ApplyBaseline(KeysOf(baseline));
      return Some(set_aside);
    }
  }

  lemma HashableMeaning(runs: seq<Run>)
    ensures AllHashable(runs) <==> forall r, e | r in runs && e in r.entries :: !HasListStatus(e)
  {
    forall e: Entry ensures StatusRaises(e) <==> HasListStatus(e) {}
    if AllHashable(runs) {
      forall r, e | r in runs && e in r.entries ensures !HasListStatus(e) { assert RunHashable(r); }
    }
    if forall r, e | r in runs && e in r.entries :: !HasListStatus(e) {
      forall k | 0 <= k < |runs| ensures RunHashable(runs[k]) { assert runs[k] in runs; }
    }
  }

  lemma HashableStep(runs: seq<Run>, n: nat)
    requires n < |runs|
    ensures AllHashable(runs[..n + 1]) <==> AllHashable(runs[..n]) && RunHashable(runs[n])
    ensures !RunHashable(runs[n]) ==> !AllHashable(runs)
  {
    assert forall k | 0 <= k < n :: runs[..n + 1][k] == runs[..n][k];
    assert runs[..n + 1][n] == runs[n];
  }

  /** A status that cannot be hashed shows up in the runs. */
  lemma HashableRuns(docs: seq<Doc>)
    ensures AllHashable(RunsOf(docs)) <==> forall d | d in docs :: !StatusRaises(d.entry)
  {
    var runs := RunsOf(docs);
    EveryEntry(docs);
    if AllHashable(runs) {
      forall d | d in docs ensures !StatusRaises(d.entry) {
        var r :| r in runs && d.entry in r.entries;
        assert RunHashable(r);
      }
    }
    if forall d | d in docs :: !StatusRaises(d.entry) {
      forall k | 0 <= k < |runs| ensures RunHashable(runs[k]) {
        assert runs[k] in runs;
      }
    }
  }

  lemma LintRaisesParts(files: seq<LintFile>)
    ensures LintRaises(files) <==> !ScansWell(Docs(files)) || !AllHashable(RunsOf(Docs(files)))
  {
    HashableRuns(Docs(files));
  }

  lemma Regroup(a: seq<Finding>, b: seq<Finding>, c: seq<Finding>)
    ensures a + b + c == a + (b + c)
  {
  }

  lemma NoPrefix(a: seq<Finding>)
    ensures [] + a == a
  {
  }

  lemma DocsStep(files: seq<LintFile>, n: nat)
    requires n < |files|
    ensures Docs(files[..n + 1]) == Docs(files[..n]) + match DocOf(files[n]) { case Some(d) => [d] case None => [] }
  {
    assert files[..n + 1][..n] == files[..n];
  }

  lemma ScansWellStep(files: seq<LintFile>, n: nat)
    requires n < |files|
    ensures var d := DocOf(files[n]);
            && (d.Some? && ScanRaises(d.value) ==> !ScansWell(Docs(files)))
            && (d.None? || !ScanRaises(d.value) ==> (ScansWell(Docs(files[..n])) ==> ScansWell(Docs(files[..n + 1]))))
  {
    DocsStep(files, n);
    if DocOf(files[n]).Some? { DocListed(files, n); }
  }

  lemma RunsStep(docs: seq<Doc>, d: Doc)
    ensures RunsOf(docs + [d]) == AddTo(RunsOf(docs), d)
  {
    assert (docs + [d])[..|docs|] == docs;
  }

  lemma {:induction false} DocsMeaning(files: seq<LintFile>)
    ensures forall d :: d in Docs(files) <==> exists f :: f in files && DocOf(f) == Some(d)
  {
    if files != [] {
      var fs, f := files[..|files| - 1], files[|files| - 1];
      DocsMeaning(fs);
      assert files == fs + [f];
    }
  }

  lemma DocListed(files: seq<LintFile>, n: nat)
    requires n < |files| && DocOf(files[n]).Some?
    ensures DocOf(files[n]).value in Docs(files)
  {
    DocsMeaning(files);
    assert files[n] in files;
  }

  lemma {:induction false} GroupMeaning(docs: seq<Doc>, key: Json)
    ensures forall e :: e in Group(docs, key) <==> exists d :: d in docs && d.entry == e && Backfill.Key(d.run) == key
  {
    if docs != [] {
      var ds, d := docs[..|docs| - 1], docs[|docs| - 1];
      GroupMeaning(ds, key);
      assert docs == ds + [d];
    }
  }

  /** The runs hold the parsed handoffs and nothing else. */
  lemma EveryEntry(docs: seq<Doc>)
    ensures forall r, e | r in RunsOf(docs) && e in r.entries :: exists d :: d in docs && d.entry == e
    ensures forall d | d in docs :: exists r :: r in RunsOf(docs) && d.entry in r.entries
  {
    RunsOfMeaning(docs);
    forall r, e | r in RunsOf(docs) && e in r.entries ensures exists d :: d in docs && d.entry == e {
      assert RunFits(docs, r);
      GroupMeaning(docs, Backfill.Key(r.id));
    }
    forall d | d in docs ensures exists r :: r in RunsOf(docs) && d.entry in r.entries {
      var r :| r in RunsOf(docs) && Backfill.Key(r.id) == Backfill.Key(d.run);
      assert RunFits(docs, r);
      GroupMeaning(docs, Backfill.Key(r.id));
    }
  }

  // ---- the generator ---------------------------------------------------------------------------------------

  /** `walk_corpus`, without the runs. */
  method WalkCorpus(files: seq<LintFile>) returns (docs: seq<Doc>)
    ensures docs == Docs(files)
  {
    docs := [];
    var n := 0;
    while n < |files|
      invariant n <= |files| && docs == Docs(files[..n])
    {
      DocsStep(files, n);
      var d := DocOf(files[n]);
      if d.Some? { docs := docs + [d.value]; }
      n := n + 1;
    }
    assert files[..n] == files;
  }

  predicate Records(docs: seq<Doc>) { forall d | d in docs :: !ResultRaises(d.entry.doc) }

  lemma RecordsStep(docs: seq<Doc>, n: nat)
    requires n < |docs|
    ensures Records(docs[..n + 1]) <==> Records(docs[..n]) && !ResultRaises(docs[n].entry.doc)
  {
    assert docs[..n + 1] == docs[..n] + [docs[n]];
  }

  /** `scan_h003_h004_h005`; None is the TypeError. */
  method ScanTimes(env: Env, docs: seq<Doc>) returns (fs: Option<seq<Finding>>)
    ensures fs.Some? <==> Records(docs)
    ensures fs.Some? ==> fs.value == Scan345(env, docs)
  {
    var out, n := [], 0;
    while n < |docs|
      invariant n <= |docs| && out == Scan345(env, docs[..n]) && Records(docs[..n])
    {
      FlatStep(docs, TimePart(env), n);
      RecordsStep(docs, n);
      var e := docs[n].entry;
      var tmp := new Linter();
      var ok := tmp.LintParsed(env, e.doc, e.path);
      if !ok {
        assert docs[n] in docs;
        return None;
      }
      NoPrefix(DocFindings(env, e.doc, e.path));
      out := out + TimeFilter(tmp.findings);
      n := n + 1;
    }
    assert docs[..n] == docs;
    return Some(out);
  }

  lemma GenerateRaisesParts(files: seq<LintFile>)
    ensures GenerateRaises(files) <==>
            (exists d :: d in Docs(files) && Unhashable(d.run)) || !Records(Docs(files)) ||
            !AllHashable(RunsOf(Docs(files)))
  {
    HashableRuns(Docs(files));
  }

  /** The walk, the two scans and `build_baseline_entries`; None is the TypeError. */
  method Generate(env: Env, files: seq<LintFile>, stamp: Stamp) returns (issues: Option<seq<Issue>>)
    ensures issues.None? <==> GenerateRaises(files)
    ensures issues.None? <==> exists x :: x in files && CannotBeRecorded(x)
    ensures issues.Some? ==> issues.value == BaselineOf(env, files, stamp)
  {
    GenerateRaisesExactly(files);
    GenerateRaisesParts(files);
    var docs := WalkCorpus(files);
    if exists d :: d in docs && Unhashable(d.run) { return None; }
    var times := ScanTimes(env, docs);
    if times.None? { return None; }
    var orphans := new Linter();
    var ok := orphans.LintOrphans(env, RunsOf(docs));
    if !ok { return None; }
    NoPrefix(OrphanFindings(env, RunsOf(docs)));
    var entries := IssuesOf(times.value + orphans.findings, stamp);
    return Some(Sorted(BY_CODE_FILE_KEY, entries));
  }
}
