/** What the baseline acknowledges: exactly the findings it recorded, whatever order the files are walked in. */
module Acknowledgement {
  import opened Registry
  import opened Handoffs
  import opened HandoffLint
  import opened MatchingKeys
  import opened Baseline
  import opened Orders
  import opened Sorting
  import Backfill

  /** `f` is among the findings of this part. */
  predicate InFile(env: Env, x: LintFile, f: Finding) { f in FileFindings(env, x) }

  predicate InRun(env: Env, r: Run, f: Finding) { f in OrphansOf(env, r) }

  lemma ScanMembers(env: Env, files: seq<LintFile>, f: Finding)
    ensures f in ScanFindings(env, files) <==> exists x :: x in files && InFile(env, x, f)
  {
    FlatMembers(files, FilePart(env), f);
  }

  lemma OrphanMembers(env: Env, runs: seq<Run>, f: Finding)
    ensures f in OrphanFindings(env, runs) <==> exists r :: r in runs && InRun(env, r, f)
  {
    FlatMembers(runs, OrphanPart(env), f);
  }

  lemma OrphanCode(env: Env, runs: seq<Run>, f: Finding)
    requires f in OrphanFindings(env, runs)
    ensures f.code == H009
  {
    OrphanMembers(env, runs, f);
    var r :| r in runs && InRun(env, r, f);
    OrphansMeaning(env, r);
  }

  lemma SkewCode(env: Env, runs: seq<Run>, f: Finding)
    requires f in SkewFindings(env, runs)
    ensures f.code == H013
  {
    FlatMembers(runs, RunSkewPart(env), f);
    var r :| r in runs && f in RunSkewPart(env)(r);
    FlatMembers(r.entries, SkewPart(env), f);
  }

  lemma TimeFilterMembers(fs: seq<Finding>, f: Finding)
    ensures f in TimeFilter(fs) <==> f in fs && TimeCode(f.code)
  {
    FilterMembers(fs, IS_TIME, f);
  }

  /** The handoff's own findings, the timestamp ones. */
  predicate InDoc(env: Env, d: Doc, f: Finding) { TimeCode(f.code) && f in DocFindings(env, d.entry.doc, d.entry.path) }

  lemma Scan345Members(env: Env, docs: seq<Doc>, f: Finding)
    ensures f in Scan345(env, docs) <==> exists d :: d in docs && InDoc(env, d, f)
  {
    FlatMembers(docs, TimePart(env), f);
    forall d | d in docs ensures f in TimePart(env)(d) <==> InDoc(env, d, f) {
      TimeFilterMembers(DocFindings(env, d.entry.doc, d.entry.path), f);
    }
  }

  lemma FileScoped(env: Env, x: LintFile, f: Finding)
    ensures InFile(env, x, f) && Covered(f.code) <==> DocOf(x).Some? && InDoc(env, DocOf(x).value, f)
  {
    if x.parsed.Some? && x.parsed.value.Obj? {
      DocFindingsMeaning(env, x.parsed.value.fields, x.path);
    }
  }

  /** The generator records exactly the scoped findings of a scan. */
  lemma ScanScoped(env: Env, files: seq<LintFile>, f: Finding)
    ensures f in Scan345(env, Docs(files)) <==> f in ScanFindings(env, files) && Covered(f.code)
  {
    ScanMembers(env, files, f);
    Scan345Members(env, Docs(files), f);
    DocsMeaning(files);
    if f in Scan345(env, Docs(files)) {
      var d :| d in Docs(files) && InDoc(env, d, f);
      var x :| x in files && DocOf(x) == Some(d);
      FileScoped(env, x, f);
    }
    if f in ScanFindings(env, files) && Covered(f.code) {
      var x :| x in files && InFile(env, x, f);
      FileScoped(env, x, f);
      assert DocOf(x).value in Docs(files);
    }
  }

  /** The findings of the registry and the log. */
  predicate Foreign(others: seq<Finding>)
  {
    forall f | f in others :: f.code == H010 || f.code == H011 || f.code == H012
  }

  lemma RecordedIsScoped(env: Env, files: seq<LintFile>, others: seq<Finding>, f: Finding)
    requires Foreign(others)
    ensures f in Recorded(env, files) <==> f in LintFindings(env, files, others) && Covered(f.code)
  {
    var docs := Docs(files);
    var scan := ScanFindings(env, files);
    var orphans, skew := OrphanFindings(env, RunsOf(docs)), SkewFindings(env, RunsOf(docs));
    ScanScoped(env, files, f);
    if f in orphans { OrphanCode(env, RunsOf(docs), f); }
    if f in skew { SkewCode(env, RunsOf(docs), f); }
    Members4(scan, orphans, skew, others, f);
    Members2(Scan345(env, docs), orphans, f);
  }

  lemma Members4(a: seq<Finding>, b: seq<Finding>, c: seq<Finding>, d: seq<Finding>, f: Finding)
    ensures f in a + b + c + d <==> f in a || f in b || f in c || f in d
  {
  }

  lemma Members2(a: seq<Finding>, b: seq<Finding>, f: Finding)
    ensures f in a + b <==> f in a || f in b
  {
  }

  /** The keys of what the generator records in this corpus. */
  function BaselineKeys(env: Env, files: seq<LintFile>): set<string> { KeySet(Recorded(env, files)) }

  function KeySet(fs: seq<Finding>): set<string> { set f | f in fs :: MatchingKey(f) }

  /** The entry names the finding's file, code and key, gives the code as reason, and carries the stamp. */
  ghost predicate EntryOf(i: Issue, f: Finding, stamp: Stamp)
  {
    && i.file == f.path && i.code == f.code && i.key == MatchingKey(f) && i.reason == f.code
    && i.acknowledgedAt == stamp.now && i.acknowledgedBy == stamp.author
  }

  /** By code, then by file, then by key. */
  ghost predicate Before(a: Issue, b: Issue)
  {
    || (a.code, b.code) in {(H003, H004), (H003, H005), (H003, H009), (H004, H005), (H004, H009), (H005, H009)}
    || (a.code == b.code && a.file != b.file && StrLeq(a.file, b.file))
    || (a.code == b.code && a.file == b.file && StrLeq(a.key, b.key))
  }

  /** The baseline file lists an entry for each H003, H004, H005 and H009 of the corpus, in order of code, file and key,
      and no other; and its keys are those that the linter looks up. */
  lemma BaselineFile(env: Env, files: seq<LintFile>, others: seq<Finding>, stamp: Stamp)
    requires Foreign(others)
    ensures var file := BaselineOf(env, files, stamp);
            && multiset(file) == multiset(IssuesOf(Recorded(env, files), stamp))
            && (forall i, j | 0 <= i < j < |file| :: Before(file[i], file[j]))
            && (forall i | i in file :: exists f ::
                  f in LintFindings(env, files, others) && Covered(f.code) && EntryOf(i, f, stamp))
            && (forall f | f in LintFindings(env, files, others) && Covered(f.code) :: exists i ::
                  i in file && EntryOf(i, f, stamp))
    ensures KeysOf(BaselineOf(env, files, stamp)) == BaselineKeys(env, files)
  {
    var file, fs := BaselineOf(env, files, stamp), Recorded(env, files);
    FileOf(fs, stamp);
    EntriesOf(file, fs, stamp);
    forall f ensures f in fs <==> f in LintFindings(env, files, others) && Covered(f.code) {
      RecordedIsScoped(env, files, others, f);
    }
    FileInOrder(file);
  }

  lemma BeforeMeaning(a: Issue, b: Issue)
    requires Covered(a.code) && Covered(b.code) && IssueLeq(a, b)
    ensures Before(a, b)
  {
  }

  lemma FileInOrder(file: seq<Issue>)
    requires Ascending(BY_CODE_FILE_KEY, file) && forall i | i in file :: Covered(i.code)
    ensures forall i, j | 0 <= i < j < |file| :: Before(file[i], file[j])
  {
    forall i, j | 0 <= i < j < |file| ensures Before(file[i], file[j]) {
      assert file[i] in file && file[j] in file && BY_CODE_FILE_KEY(file[i], file[j]);
      BeforeMeaning(file[i], file[j]);
    }
  }

  lemma EntriesOf(file: seq<Issue>, fs: seq<Finding>, stamp: Stamp)
    requires multiset(file) == multiset(IssuesOf(fs, stamp))
    ensures forall i | i in file :: exists f :: f in fs && EntryOf(i, f, stamp)
    ensures forall f | f in fs :: exists i :: i in file && EntryOf(i, f, stamp)
  {
    var issues := IssuesOf(fs, stamp);
    forall i | i in file ensures exists f :: f in fs && EntryOf(i, f, stamp) {
      assert i in multiset(issues);
      var k :| 0 <= k < |issues| && issues[k] == i;
      assert fs[k] in fs && EntryOf(i, fs[k], stamp);
    }
    forall f | f in fs ensures exists i :: i in file && EntryOf(i, f, stamp) {
      var k :| 0 <= k < |fs| && fs[k] == f;
      assert issues[k] in multiset(file) && EntryOf(issues[k], f, stamp);
    }
  }

  lemma FileOf(fs: seq<Finding>, stamp: Stamp)
    ensures var file := Sorted(BY_CODE_FILE_KEY, IssuesOf(fs, stamp));
            && multiset(file) == multiset(IssuesOf(fs, stamp)) && Ascending(BY_CODE_FILE_KEY, file)
            && KeysOf(file) == KeySet(fs)
  {
    var issues := IssuesOf(fs, stamp);
    var file := Sorted(BY_CODE_FILE_KEY, issues);
    IssuesAreRanked();
    SortedSorts(BY_CODE_FILE_KEY, issues);
    forall key ensures key in KeysOf(file) <==> key in KeySet(fs) {
      if key in KeysOf(file) {
        var i :| i in file && i.key == key;
        assert i in multiset(issues);
        var k :| 0 <= k < |issues| && issues[k] == i;
        assert fs[k] in fs;
      }
      if key in KeySet(fs) {
        var f :| f in fs && MatchingKey(f) == key;
        var k :| 0 <= k < |fs| && fs[k] == f;
        assert issues[k] in multiset(file);
      }
    }
  }

  /** A finding of corpus B is acknowledged by the baseline of corpus A exactly if it is scoped and A had a finding with
      its key. */
  lemma AcknowledgesExactly(env: Env, a: seq<LintFile>, others: seq<Finding>, f: Finding)
    requires Foreign(others)
    ensures MatchingKey(f) in BaselineKeys(env, a) <==>
            Covered(f.code) && exists g :: g in LintFindings(env, a, others) && MatchingKey(g) == MatchingKey(f)
  {
    var all := LintFindings(env, a, others);
    if MatchingKey(f) in BaselineKeys(env, a) {
      var g :| g in Recorded(env, a) && MatchingKey(g) == MatchingKey(f);
      RecordedIsScoped(env, a, others, g);
      KeyDeterminesCode(f, g);
      assert g in all;
    }
    if g :| Covered(f.code) && g in all && MatchingKey(g) == MatchingKey(f) {
      KeyDeterminesCode(f, g);
      RecordedIsScoped(env, a, others, g);
    }
  }

  /** No bar or comma in the paths that orphan findings mention. */
  ghost predicate OrphanPathsFree(fs: seq<Finding>) { forall f | f in fs && f.code == H009 :: PathsFree(f) }

  /** The recorded findings are clean, the timestamp ones whatever their paths are. */
  lemma ScopedIsClean(env: Env, files: seq<LintFile>, others: seq<Finding>, f: Finding)
    requires BarFreeWording(env) && Foreign(others) && OrphanPathsFree(LintFindings(env, files, others))
    requires f in LintFindings(env, files, others) && Covered(f.code)
    ensures Clean(f)
  {
    RecordedIsScoped(env, files, others, f);
    var docs := Docs(files);
    Members2(Scan345(env, docs), OrphanFindings(env, RunsOf(docs)), f);
    if f in Scan345(env, docs) {
      Scan345Members(env, docs, f);
      var d :| d in docs && InDoc(env, d, f);
      InDocIsClean(env, d, f);
    } else {
      OrphanMembers(env, RunsOf(docs), f);
      var r :| r in RunsOf(docs) && InRun(env, r, f);
      var k := OrphanOf(env, r, f);
      OrphanHasLater(env, r, k, f);
    }
  }

  lemma InDocIsClean(env: Env, d: Doc, f: Finding)
    requires BarFreeWording(env) && InDoc(env, d, f)
    ensures Clean(f)
  {
    var doc, path := d.entry.doc, d.entry.path;
    TimeCodesComeFromTimes(env, doc, path, f);
    TimeMessagesHaveNoBar(env, doc, path, f);
  }

  lemma TimeCodesComeFromTimes(env: Env, doc: Fields, path: string, f: Finding)
    requires f in DocFindings(env, doc, path) && TimeCode(f.code)
    ensures f in TimeFindings(env, doc, path)
  {
    MissingKeysCode(env, doc, path, |Backfill.REQUIRED|);
    ResultFindingsCode(env, doc, path);
    var a, b, c := MissingKeys(env, doc, path, |Backfill.REQUIRED|), TimeFindings(env, doc, path),
                   ResultFindings(env, doc, path);
    Members3(a, b, c, f);
  }

  lemma Members3(a: seq<Finding>, b: seq<Finding>, c: seq<Finding>, f: Finding)
    ensures f in a + b + c <==> f in a || f in b || f in c
  {
  }

  lemma OrphanHasLater(env: Env, r: Run, k: nat, f: Finding)
    requires Reports(env, r.id, Items(env, r.entries), k, f)
    ensures f.code == H009 && f.later != []
  {
    var es := Items(env, r.entries);
    var j: nat :| Bypasses(es, k, j);
    assert es[j].path in Bypassing(es, k);
  }

  /** Where the paths of orphan findings have no bar or comma, a finding of corpus B is acknowledged by the baseline of
      corpus A exactly if it is scoped and A had the same finding. */
  lemma AcknowledgesSame(env: Env, a: seq<LintFile>, others: seq<Finding>, b: seq<LintFile>, more: seq<Finding>,
                         f: Finding)
    requires BarFreeWording(env) && Foreign(others) && Foreign(more) && f in LintFindings(env, b, more)
    requires OrphanPathsFree(LintFindings(env, a, others)) && OrphanPathsFree(LintFindings(env, b, more))
    ensures MatchingKey(f) in BaselineKeys(env, a) <==>
            Covered(f.code) && exists g :: g in LintFindings(env, a, others) && Same(g, f)
  {
    AcknowledgesExactly(env, a, others, f);
    if Covered(f.code) {
      ScopedIsClean(env, b, more, f);
      forall g | g in LintFindings(env, a, others) ensures MatchingKey(g) == MatchingKey(f) <==> Same(g, f) {
        KeyOfRecorded(env, a, others, g, f);
      }
    }
  }

  lemma KeyOfRecorded(env: Env, a: seq<LintFile>, others: seq<Finding>, g: Finding, f: Finding)
    requires BarFreeWording(env) && Foreign(others) && OrphanPathsFree(LintFindings(env, a, others))
    requires g in LintFindings(env, a, others) && Clean(f) && Covered(f.code)
    ensures MatchingKey(g) == MatchingKey(f) <==> Same(g, f)
  {
    if Covered(g.code) {
      ScopedIsClean(env, a, others, g);
      KeyMeaning(g, f);
    } else if MatchingKey(g) == MatchingKey(f) {
      KeyDeterminesCode(g, f);
    }
  }

  lemma FilterByScope(fs: seq<Finding>, keys: set<string>)
    requires forall f | f in fs :: MatchingKey(f) in keys <==> Covered(f.code)
    ensures Remaining(fs, keys) == Unscoped(fs)
  {
    FilterSame(fs, Unknown(keys), IS_UNSCOPED);
  }

  /** Every finding is either left or set aside. */
  lemma NothingIsLost(fs: seq<Finding>, keys: set<string>)
    ensures multiset(Remaining(fs, keys)) + multiset(Acknowledged(fs, keys)) == multiset(fs)
  {
    FilterSplits(fs, Unknown(keys), Known(keys));
  }

  /** Linting the corpus a baseline was generated from leaves exactly the findings that no baseline covers, in place. */
  lemma BaselineRoundTrip(env: Env, files: seq<LintFile>, others: seq<Finding>, stamp: Stamp)
    requires Foreign(others)
    ensures Remaining(LintFindings(env, files, others), KeysOf(BaselineOf(env, files, stamp))) ==
            Unscoped(LintFindings(env, files, others))
  {
    BaselineFile(env, files, others, stamp);
    var all := LintFindings(env, files, others);
    forall f | f in all ensures MatchingKey(f) in BaselineKeys(env, files) <==> Covered(f.code) {
      AcknowledgesExactly(env, files, others, f);
    }
    FilterByScope(all, BaselineKeys(env, files));
  }

  // ---- another walk over the same corpus -------------------------------------------------------------------

  /** Two walks over the same files. */
  ghost predicate SameCorpus(a: seq<LintFile>, b: seq<LintFile>)
  {
    DistinctFiles(a) && DistinctFiles(b) && forall x :: x in a <==> x in b
  }

  ghost predicate DistinctFiles(files: seq<LintFile>)
  {
    forall i, j | 0 <= i < j < |files| :: files[i].path != files[j].path
  }

  ghost predicate DistinctDocs(docs: seq<Doc>)
  {
    forall i, j | 0 <= i < j < |docs| :: docs[i].entry.path != docs[j].entry.path
  }

  ghost predicate DistinctEntries(es: seq<Entry>) { forall i, j | 0 <= i < j < |es| :: es[i].path != es[j].path }

  /** Ids that hash alike are alike: no run is called both 1 and true. */
  ghost predicate UniformIds(docs: seq<Doc>)
  {
    forall c, d | c in docs && d in docs :: Backfill.Key(c.run) == Backfill.Key(d.run) ==> c.run == d.run
  }

  /** No open handoff of a run shares its step key with a completed one. */
  ghost predicate NoTies(env: Env, docs: seq<Doc>) { forall key :: NoTie(Items(env, Group(docs, key))) }

  lemma {:induction false} DocsDistinct(files: seq<LintFile>)
    requires DistinctFiles(files)
    ensures DistinctDocs(Docs(files))
  {
    if files != [] {
      var xs, x := files[..|files| - 1], files[|files| - 1];
      DocsDistinct(xs);
      DocsMeaning(xs);
      forall d | d in Docs(xs) ensures d.entry.path != x.path {
        var y :| y in xs && DocOf(y) == Some(d);
        assert y.path == d.entry.path;
      }
    }
  }

  lemma {:induction false} GroupDistinct(docs: seq<Doc>, key: Json)
    requires DistinctDocs(docs)
    ensures DistinctEntries(Group(docs, key))
  {
    if docs != [] {
      var ds, d := docs[..|docs| - 1], docs[|docs| - 1];
      GroupDistinct(ds, key);
      GroupMeaning(ds, key);
      forall e | e in Group(ds, key) ensures e.path != d.entry.path {
        var c :| c in ds && c.entry == e;
      }
    }
  }

  lemma SameDocs(a: seq<LintFile>, b: seq<LintFile>)
    requires SameCorpus(a, b)
    ensures DistinctDocs(Docs(a)) && DistinctDocs(Docs(b)) && forall d :: d in Docs(a) <==> d in Docs(b)
  {
    DocsDistinct(a);
    DocsDistinct(b);
    DocsMeaning(a);
    DocsMeaning(b);
  }

  /** A run has the same handoffs in both walks. */
  lemma SameGroups(env: Env, c: seq<Doc>, d: seq<Doc>, key: Json)
    requires DistinctDocs(c) && DistinctDocs(d) && forall x :: x in c <==> x in d
    ensures SameFiles(Items(env, Group(c, key)), Items(env, Group(d, key)))
  {
    GroupDistinct(c, key);
    GroupDistinct(d, key);
    GroupMeaning(c, key);
    GroupMeaning(d, key);
    SameItems(env, Group(c, key), Group(d, key));
  }

  lemma SameItems(env: Env, es: seq<Entry>, fs: seq<Entry>)
    requires DistinctEntries(es) && DistinctEntries(fs) && forall e :: e in es <==> e in fs
    ensures SameFiles(Items(env, es), Items(env, fs))
  {
    ItemsWithin(env, es, fs);
    ItemsWithin(env, fs, es);
    var p, q := Items(env, es), Items(env, fs);
    forall i | 0 <= i < |es| ensures p[i].path == es[i].path { assert p[i] == ItemOf(env, es[i]); }
    forall i | 0 <= i < |fs| ensures q[i].path == fs[i].path { assert q[i] == ItemOf(env, fs[i]); }
  }

  lemma ItemsWithin(env: Env, es: seq<Entry>, fs: seq<Entry>)
    requires forall e | e in es :: e in fs
    ensures forall x | x in Items(env, es) :: x in Items(env, fs)
  {
    var p, q := Items(env, es), Items(env, fs);
    forall x | x in p ensures x in q {
      var i :| 0 <= i < |p| && p[i] == x;
      assert es[i] in es && es[i] in fs;
      var k :| 0 <= k < |fs| && fs[k] == es[i];
      assert q[k] == ItemOf(env, fs[k]) && p[i] == ItemOf(env, es[i]);
    }
  }

  /** Findings about one orphan in two walks have the same key. */
  lemma OrphanKeySame(env: Env, id: Json, es: seq<Item>, fs: seq<Item>, i: nat, k: nat, f: Finding, g: Finding)
    requires SameFiles(es, fs) && Reports(env, id, es, i, f) && Reports(env, id, fs, k, g)
    requires es[i] == fs[k] && Bypassing(es, i) == Bypassing(fs, k)
    ensures MatchingKey(f) == MatchingKey(g)
  {
    SameSetSameMultiset(f.later, g.later);
    SameSharesKey(f, g);
  }

  /** The run of a handoff in another walk. */
  lemma OtherRun(c: seq<Doc>, d: seq<Doc>, r: Run) returns (s: Run)
    requires (forall x :: x in c <==> x in d) && UniformIds(c) && r in RunsOf(d)
    ensures s in RunsOf(c) && s.id == r.id
    ensures s.entries == Group(c, Backfill.Key(r.id)) && r.entries == Group(d, Backfill.Key(r.id))
  {
    RunsOfMeaning(c);
    RunsOfMeaning(d);
    assert RunFits(d, r);
    var x :| x in d && x.run == r.id;
    assert HasRun(RunsOf(c), Backfill.Key(x.run));
    s :| s in RunsOf(c) && Backfill.Key(s.id) == Backfill.Key(x.run);
    assert RunFits(c, s);
    var y :| y in c && y.run == s.id;
  }

  /** An orphan of a run walked one way is an orphan of the run walked the other way, with the same key. */
  lemma OrphanInOtherRun(env: Env, r: Run, s: Run, g: Finding)
    requires r.id == s.id && InRun(env, r, g) && NoTie(Items(env, s.entries))
    requires SameFiles(Items(env, s.entries), Items(env, r.entries))
    ensures exists f :: InRun(env, s, f) && MatchingKey(f) == MatchingKey(g)
  {
    var k := OrphanOf(env, r, g);
    var i := SameOrphan(Items(env, s.entries), Items(env, r.entries), k);
    var f := ReportOf(env, s, i);
    OrphanKeySame(env, r.id, Items(env, s.entries), Items(env, r.entries), i, k, f, g);
  }

  lemma OrphanOf(env: Env, r: Run, g: Finding) returns (k: nat)
    requires InRun(env, r, g)
    ensures Reports(env, r.id, Items(env, r.entries), k, g)
  {
    OrphansMeaning(env, r);
    k :| Reports(env, r.id, Items(env, r.entries), k, g);
  }

  lemma ReportOf(env: Env, s: Run, i: nat) returns (f: Finding)
    requires IsOrphan(Items(env, s.entries), i)
    ensures InRun(env, s, f) && Reports(env, s.id, Items(env, s.entries), i, f)
  {
    OrphansMeaning(env, s);
    f :| f in OrphansOf(env, s) && Reports(env, s.id, Items(env, s.entries), i, f);
  }

  lemma SameOrphan(es: seq<Item>, fs: seq<Item>, k: nat) returns (i: nat)
    requires SameFiles(es, fs) && NoTie(es) && IsOrphan(fs, k)
    ensures IsOrphan(es, i) && es[i] == fs[k] && Bypassing(es, i) == Bypassing(fs, k)
  {
    NoTieSame(es, fs);
    OrphanMoves(fs, es, k);
    i :| i < |es| && es[i] == fs[k] && IsOrphan(es, i) && Bypassing(es, i) == Bypassing(fs, k);
  }

  /** The same for the runs of a corpus. */
  lemma OrphanInOtherWalk(env: Env, c: seq<Doc>, d: seq<Doc>, r: Run, g: Finding)
    requires DistinctDocs(c) && DistinctDocs(d) && (forall x :: x in c <==> x in d) && UniformIds(c) && NoTies(env, c)
    requires r in RunsOf(d) && InRun(env, r, g)
    ensures exists s, f :: s in RunsOf(c) && InRun(env, s, f) && MatchingKey(f) == MatchingKey(g)
  {
    var s := OtherRun(c, d, r);
    SameGroups(env, c, d, Backfill.Key(r.id));
    assert NoTie(Items(env, Group(c, Backfill.Key(r.id))));
    OrphanInOtherRun(env, r, s, g);
  }

  /** Without ties, a baseline generated in one walk covers every scoped finding of another walk over the same files. */
  lemma BaselineSurvivesWalkOrder(env: Env, a: seq<LintFile>, b: seq<LintFile>, others: seq<Finding>, stamp: Stamp)
    requires Foreign(others) && SameCorpus(a, b) && UniformIds(Docs(a)) && NoTies(env, Docs(a))
    ensures Remaining(LintFindings(env, b, others), KeysOf(BaselineOf(env, a, stamp))) ==
            Unscoped(LintFindings(env, b, others))
  {
    BaselineFile(env, a, others, stamp);
    var all := LintFindings(env, b, others);
    forall g | g in all ensures MatchingKey(g) in BaselineKeys(env, a) <==> Covered(g.code) {
      AcknowledgesExactly(env, a, others, g);
      if Covered(g.code) { CoveredInOtherWalk(env, a, b, others, g); }
    }
    FilterByScope(all, BaselineKeys(env, a));
  }

  lemma CoveredInOtherWalk(env: Env, a: seq<LintFile>, b: seq<LintFile>, others: seq<Finding>, g: Finding)
    requires Foreign(others) && SameCorpus(a, b) && UniformIds(Docs(a)) && NoTies(env, Docs(a))
    requires g in LintFindings(env, b, others) && Covered(g.code)
    ensures MatchingKey(g) in BaselineKeys(env, a)
  {
    RecordedIsScoped(env, b, others, g);
    SameDocs(a, b);
    Members2(Scan345(env, Docs(b)), OrphanFindings(env, RunsOf(Docs(b))), g);
    if g in Scan345(env, Docs(b)) {
      Scan345Members(env, Docs(b), g);
      Scan345Members(env, Docs(a), g);
      Members2(Scan345(env, Docs(a)), OrphanFindings(env, RunsOf(Docs(a))), g);
    } else {
      OrphanMembers(env, RunsOf(Docs(b)), g);
      var r :| r in RunsOf(Docs(b)) && InRun(env, r, g);
      OrphanInOtherWalk(env, Docs(a), Docs(b), r, g);
      var s, f :| s in RunsOf(Docs(a)) && InRun(env, s, f) && MatchingKey(f) == MatchingKey(g);
      OrphanMembers(env, RunsOf(Docs(a)), f);
      Members2(Scan345(env, Docs(a)), OrphanFindings(env, RunsOf(Docs(a))), f);
    }
  }
}
