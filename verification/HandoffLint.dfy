/** The handoff linter: checks of one file, orphaned steps of a run, and clock skew. */
module HandoffLint {
  import opened Orders
  import opened Registry
  import opened Handoffs
  import opened Timestamps
  import Backfill

  datatype Severity = Blocker | Major | Minor
  datatype Code = H001 | H002 | H003 | H004 | H005 | H006 | H007 | H008 | H009 | H010 | H011 | H012 | H013

  /** A finding; `later` is what the linter's side table records for it, the bypassing steps of an orphan. */
  datatype Finding = Finding(code: Code, severity: Severity, path: string, message: string, later: seq<string>)

  /** Text that is not modelled: `str(step).strip().lower()`, and the wording of the messages. */
  datatype Env = Env(
    digits: Digits, stepText: Json -> string,
    bom: string, unparseable: Option<string> -> string, notObject: string, missing: string -> string,
    backwards: (string, string) -> string, early: (string, string) -> string, unset: string,
    resultString: string, illegal: Json -> string,
    orphan: (Json, nat, Json) -> string, skew: (int, int) -> string, boundary: int -> bool)

  function Found(code: Code, severity: Severity, path: string, message: string): Finding
  {
    Finding(code, severity, path, message, [])
  }

  /** The findings of all parts, one after the other. */
  function Flat<T>(xs: seq<T>, part: T -> seq<Finding>): seq<Finding>
  {
    if xs == [] then [] else Flat(xs[..|xs| - 1], part) + part(xs[|xs| - 1])
  }

  lemma FlatStep<T>(xs: seq<T>, part: T -> seq<Finding>, n: nat)
    requires n < |xs|
    ensures Flat(xs[..n + 1], part) == Flat(xs[..n], part) + part(xs[n])
  {
    assert xs[..n + 1][..n] == xs[..n];
  }

  lemma {:induction false} FlatMembers<T>(xs: seq<T>, part: T -> seq<Finding>, f: Finding)
    ensures f in Flat(xs, part) <==> exists x :: x in xs && f in part(x)
  {
    if xs != [] {
      var init, last := xs[..|xs| - 1], xs[|xs| - 1];
      FlatMembers(init, part, f);
      assert xs == init + [last];
    }
  }

  /** `[f for f in fs if keep(f)]`. */
  function Filter(fs: seq<Finding>, keep: Finding -> bool): seq<Finding>
  {
    if fs == [] then [] else
    Filter(fs[..|fs| - 1], keep) + if keep(fs[|fs| - 1]) then [fs[|fs| - 1]] else []
  }

  lemma FilterStep(fs: seq<Finding>, keep: Finding -> bool, n: nat)
    requires n < |fs|
    ensures Filter(fs[..n + 1], keep) == Filter(fs[..n], keep) + if keep(fs[n]) then [fs[n]] else []
  {
    assert fs[..n + 1][..n] == fs[..n];
  }

  lemma {:induction false} FilterMembers(fs: seq<Finding>, keep: Finding -> bool, f: Finding)
    ensures f in Filter(fs, keep) <==> f in fs && keep(f)
  {
    if fs != [] {
      FilterMembers(fs[..|fs| - 1], keep, f);
      assert fs == fs[..|fs| - 1] + [fs[|fs| - 1]];
    }
  }

  lemma {:induction false} FilterSame(fs: seq<Finding>, p: Finding -> bool, q: Finding -> bool)
    requires forall f | f in fs :: p(f) <==> q(f)
    ensures Filter(fs, p) == Filter(fs, q)
  {
    if fs != [] {
      assert fs[|fs| - 1] in fs && forall f | f in fs[..|fs| - 1] :: f in fs;
      FilterSame(fs[..|fs| - 1], p, q);
    }
  }

  lemma {:induction false} FilterSplits(fs: seq<Finding>, p: Finding -> bool, q: Finding -> bool)
    requires forall f | f in fs :: p(f) <==> !q(f)
    ensures multiset(Filter(fs, p)) + multiset(Filter(fs, q)) == multiset(fs)
  {
    if fs != [] {
      var init, last := fs[..|fs| - 1], fs[|fs| - 1];
      assert last in fs && forall f | f in init :: f in fs;
      FilterSplits(init, p, q);
      AddLast(Filter(init, p), Filter(init, q), init, last);
      assert fs == init + [last];
      assert Filter(fs, p) == Filter(init, p) + if p(last) then [last] else [];
      assert Filter(fs, q) == Filter(init, q) + if p(last) then [] else [last];
    }
  }

  lemma AddLast(p: seq<Finding>, q: seq<Finding>, fs: seq<Finding>, f: Finding)
    requires multiset(p) + multiset(q) == multiset(fs)
    ensures multiset(p + [f]) + multiset(q + []) == multiset(fs + [f])
    ensures multiset(p + []) + multiset(q + [f]) == multiset(fs + [f])
  {
    assert p + [] == p && q + [] == q;
  }

  // ---- step order ----------------------------------------------------------------------------------------

  datatype StepKey = StepKey(number: nat, text: string)

  predicate IsFinal(s: string) { "final" <= s || (|s| >= 5 && s[|s| - 5..] == "final") }

  function DigitRun(d: Digits, s: string): (n: nat)
    ensures n <= |s| && (forall i | 0 <= i < n :: d(s[i]).Some?) && (n < |s| ==> d(s[n]).None?)
  {
    if s == [] || d(s[0]).None? then 0 else 1 + DigitRun(d, s[1..])
  }

  function FirstLine(s: string): string
  {
    if s == [] || s[0] == '\n' then [] else [s[0]] + FirstLine(s[1..])
  }

  /** `step_sort_key` on the trimmed lower-case text of a step. */
  function StepKeyOf(d: Digits, s: string): StepKey
  {
    if IsFinal(s) then StepKey(9999, s) else
    var n := DigitRun(d, s);
    if n > 0 then StepKey(Number(d, s[..n]), FirstLine(s[n..])) else StepKey(5000, s)
  }

  predicate StepLess(a: StepKey, b: StepKey)
  {
    a.number < b.number || (a.number == b.number && StrLess(a.text, b.text))
  }

  lemma StepTotal(a: StepKey, b: StepKey)
    ensures StepLess(a, b) || StepLess(b, a) || a == b
    ensures !(StepLess(a, b) && StepLess(b, a)) && !StepLess(a, a)
  {
    StrTotal(a.text, b.text);
    StrTotal(a.text, a.text);
  }

  lemma StepTransitive(a: StepKey, b: StepKey, c: StepKey)
    requires StepLess(a, b) && StepLess(b, c)
    ensures StepLess(a, c)
  {
    StrTotal(a.text, b.text);
    StrTotal(b.text, c.text);
    StrTotal(a.text, c.text);
    if StrLeq(a.text, b.text) && StrLeq(b.text, c.text) { StrTransitive(a.text, b.text, c.text); }
  }

  /** A final step is last of all exactly against steps that are not numbered 9999 or more; at 9999 the text decides. */
  lemma FinalIsLastIff(d: Digits, s: string, t: string)
    requires IsFinal(s) && !IsFinal(t)
    ensures StepLess(StepKeyOf(d, t), StepKeyOf(d, s)) <==>
            var n := DigitRun(d, t);
            n == 0 || Number(d, t[..n]) < 9999 || (Number(d, t[..n]) == 9999 && StrLess(FirstLine(t[n..]), s))
  {
  }

  /** The step `10000` sorts after the final one. */
  lemma FinalIsNotLast(d: Digits)
    requires Unicode(d)
    ensures var s, t := StepKeyOf(d, "final"), StepKeyOf(d, "10000"); StepLess(s, t) && !StepLess(t, s)
  {
    var t := "10000";
    assert t[|t| - 5..] == t && t[0] != 'f' && "final"[0] == 'f';
    assert d('1') == Some(1) && d('0') == Some(0);
    assert t[1..] == "0000" && t[1..][1..] == "000" && t[1..][1..][1..] == "00" && t[1..][1..][1..][1..] == "0";
    assert DigitRun(d, "") == 0 && DigitRun(d, "0") == 1 && DigitRun(d, "00") == 2 && DigitRun(d, "000") == 3;
    assert DigitRun(d, "0000") == 4 && DigitRun(d, t) == 5;
    assert t[..5] == t && t[..4] == "1000" && "1000"[..3] == "100" && "100"[..2] == "10" && "10"[..1] == "1";
    assert Number(d, "1") == 1 && Number(d, "10") == 10 && Number(d, "100") == 100 && Number(d, "1000") == 1000;
    assert Number(d, t) == 10000;
    FinalIsLastIff(d, "final", t);
  }

  // ---- the checks of one file ------------------------------------------------------------------------------

  predicate BothStamps(d: Digits, a: Option<Json>, b: Option<Json>)
  {
    a.Some? && b.Some? && a.value.Str? && b.value.Str? && IsoZ(d, a.value.s) && IsoZ(d, b.value.s)
  }

  /** Both are stamps, and the first sorts before the second. */
  predicate Backwards(d: Digits, a: Option<Json>, b: Option<Json>)
  {
    BothStamps(d, a, b) && StrLess(a.value.s, b.value.s)
  }

  function Status(doc: Fields): Option<Json> { Field(doc, "status") }

  predicate Completed(doc: Fields) { Status(doc) == Some(Str("COMPLETED")) }

  predicate Unset(v: Option<Json>) { v.None? || !Backfill.Truthy(v.value) }

  const LEGAL: set<string> := {"PASS", "FAIL", "PARTIAL", "BLOCKED", "SKIPPED"}

  /** `result.status`, where it is present and not null. */
  function ResultStatus(doc: Fields): Option<Json>
  {
    match Field(doc, "result")
    case Some(Obj(r)) => if "status" in r && r["status"] != Null then Some(r["status"]) else None
    case _ => None
  }

  /** Testing `result.status` against the legal set raises TypeError. */
  predicate ResultRaises(doc: Fields)
  {
    ResultStatus(doc).Some? && Unhashable(ResultStatus(doc).value)
  }

  predicate IllegalResult(doc: Fields)
  {
    ResultStatus(doc).Some? && !(ResultStatus(doc).value.Str? && ResultStatus(doc).value.s in LEGAL)
  }

  function MissingKeys(env: Env, doc: Fields, path: string, n: nat): seq<Finding>
    requires n <= |Backfill.REQUIRED|
  {
    if n == 0 then [] else
    MissingKeys(env, doc, path, n - 1) +
    var k := Backfill.REQUIRED[n - 1]; if k in doc then [] else [Found(H007, Major, path, env.missing(k))]
  }

  function When(b: bool, f: Finding): seq<Finding> { if b then [f] else [] }

  function StampText(v: Option<Json>): string { if v.Some? && v.value.Str? then v.value.s else "" }

  /** The three checks of a file's timestamps. */
  function TimeFindings(env: Env, doc: Fields, path: string): seq<Finding>
  {
    var created, started, completed := Field(doc, "created_at"), Field(doc, "started_at"), Field(doc, "completed_at");
    When(Backwards(env.digits, completed, started),
         Found(H003, Blocker, path, env.backwards(StampText(completed), StampText(started)))) +
    When(Backwards(env.digits, started, created),
         Found(H004, Blocker, path, env.early(StampText(started), StampText(created)))) +
    When(Completed(doc) && Unset(completed), Found(H005, Blocker, path, env.unset))
  }

  function ResultFindings(env: Env, doc: Fields, path: string): seq<Finding>
  {
    match Field(doc, "result")
    case Some(Str(_)) => [Found(H002, Blocker, path, env.resultString)]
    case _ =>
      if IllegalResult(doc) then [Found(H006, Blocker, path, env.illegal(ResultStatus(doc).value))] else []
  }

  function DocFindings(env: Env, doc: Fields, path: string): seq<Finding>
  {
    MissingKeys(env, doc, path, |Backfill.REQUIRED|) + TimeFindings(env, doc, path) + ResultFindings(env, doc, path)
  }

  predicate Has(fs: seq<Finding>, c: Code) { exists f :: f in fs && f.code == c }

  lemma {:induction false} MissingKeysCode(env: Env, doc: Fields, path: string, n: nat)
    requires n <= |Backfill.REQUIRED|
    ensures forall f | f in MissingKeys(env, doc, path, n) :: f.code == H007
  {
    if n > 0 { MissingKeysCode(env, doc, path, n - 1); }
  }

  /** Which codes a file carries. */
  lemma DocFindingsMeaning(env: Env, doc: Fields, path: string)
    ensures var fs := DocFindings(env, doc, path);
            && (Has(fs, H003) <==> Backwards(env.digits, Field(doc, "completed_at"), Field(doc, "started_at")))
            && (Has(fs, H004) <==> Backwards(env.digits, Field(doc, "started_at"), Field(doc, "created_at")))
            && (Has(fs, H005) <==> Completed(doc) && Unset(Field(doc, "completed_at")))
            && forall f | f in fs ::
                 f.path == path && f.later == [] && f.code !in {H001, H008, H009, H010, H011, H012, H013}
  {
    MissingKeysCode(env, doc, path, |Backfill.REQUIRED|);
    MissingKeysPath(env, doc, path, |Backfill.REQUIRED|);
    TimeFindingsMeaning(env, doc, path);
    ResultFindingsCode(env, doc, path);
    Around(MissingKeys(env, doc, path, |Backfill.REQUIRED|), TimeFindings(env, doc, path),
           ResultFindings(env, doc, path), path);
  }

  /** The timestamp codes of a file come from the timestamp checks. */
  lemma Around(a: seq<Finding>, b: seq<Finding>, c: seq<Finding>, path: string)
    requires forall f | f in a :: f.path == path && f.later == [] && f.code == H007
    requires forall f | f in b :: f.path == path && f.later == [] && f.code in {H003, H004, H005}
    requires forall f | f in c :: f.path == path && f.later == [] && (f.code == H002 || f.code == H006)
    ensures forall code | code in {H003, H004, H005} :: Has(a + b + c, code) <==> Has(b, code)
    ensures forall f | f in a + b + c ::
              f.path == path && f.later == [] && f.code !in {H001, H008, H009, H010, H011, H012, H013}
  {
    var fs := a + b + c;
    assert forall f :: f in fs <==> f in a || f in b || f in c;
  }

  lemma ResultFindingsCode(env: Env, doc: Fields, path: string)
    ensures forall f | f in ResultFindings(env, doc, path) ::
              f.path == path && f.later == [] && (f.code == H002 || f.code == H006)
  {
  }

  lemma {:induction false} MissingKeysPath(env: Env, doc: Fields, path: string, n: nat)
    requires n <= |Backfill.REQUIRED|
    ensures forall f | f in MissingKeys(env, doc, path, n) :: f.path == path && f.later == []
  {
    if n > 0 { MissingKeysPath(env, doc, path, n - 1); }
  }

  lemma TimeFindingsMeaning(env: Env, doc: Fields, path: string)
    ensures var fs := TimeFindings(env, doc, path);
            && (Has(fs, H003) <==> Backwards(env.digits, Field(doc, "completed_at"), Field(doc, "started_at")))
            && (Has(fs, H004) <==> Backwards(env.digits, Field(doc, "started_at"), Field(doc, "created_at")))
            && (Has(fs, H005) <==> Completed(doc) && Unset(Field(doc, "completed_at")))
            && forall f | f in fs :: f.path == path && f.later == [] && f.code in {H003, H004, H005}
  {
    var created, started, completed := Field(doc, "created_at"), Field(doc, "started_at"), Field(doc, "completed_at");
    var x := Found(H003, Blocker, path, env.backwards(StampText(completed), StampText(started)));
    var y := Found(H004, Blocker, path, env.early(StampText(started), StampText(created)));
    var z := Found(H005, Blocker, path, env.unset);
    var p, q, r := Backwards(env.digits, completed, started), Backwards(env.digits, started, created),
                   Completed(doc) && Unset(completed);
    assert forall f :: f in When(p, x) + When(q, y) + When(r, z) <==> (p && f == x) || (q && f == y) || (r && f == z);
    assert p ==> x in TimeFindings(env, doc, path);
    assert q ==> y in TimeFindings(env, doc, path);
    assert r ==> z in TimeFindings(env, doc, path);
  }

  /** The wording of the timestamp findings has no bar of its own. */
  ghost predicate BarFreeWording(env: Env)
  {
    && env.digits('|').None? && '|' !in env.unset
    && forall s, t | '|' !in s && '|' !in t :: '|' !in env.backwards(s, t) && '|' !in env.early(s, t)
  }

  lemma StampHasNoBar(d: Digits, s: string)
    requires IsoZ(d, s) && d('|').None?
    ensures '|' !in s
  {
    forall i: nat | i < |s| ensures s[i] != '|' {
      assert i < 20 ==> ShapeAt(d, s, i);
    }
  }

  /** So their messages have none. */
  lemma TimeMessagesHaveNoBar(env: Env, doc: Fields, path: string, f: Finding)
    requires BarFreeWording(env) && f in TimeFindings(env, doc, path)
    ensures '|' !in f.message
  {
    var created, started, completed := Field(doc, "created_at"), Field(doc, "started_at"), Field(doc, "completed_at");
    if Backwards(env.digits, completed, started) {
      StampHasNoBar(env.digits, completed.value.s);
      StampHasNoBar(env.digits, started.value.s);
    }
    if Backwards(env.digits, started, created) {
      StampHasNoBar(env.digits, started.value.s);
      StampHasNoBar(env.digits, created.value.s);
    }
  }

  // ---- clock skew ------------------------------------------------------------------------------------------

  datatype Entry = Entry(path: string, doc: Fields)

  /** A parsed run: what its handoffs call it, and its handoffs in walk order. */
  datatype Run = Run(id: Json, entries: seq<Entry>)

  /** How many seconds completion precedes the start, if H013 gets to compute it. */
  function Gap(env: Env, doc: Fields): Option<int>
  {
    var started, completed := Field(doc, "started_at"), Field(doc, "completed_at");
    if Backwards(env.digits, completed, started) then Elapsed(env.digits, completed.value.s, started.value.s) else None
  }

  /** The seconds between two stamps, if `strptime` takes both. */
  function Elapsed(d: Digits, from: string, to: string): Option<int>
    requires IsoZ(d, from) && IsoZ(d, to)
  {
    Difference(Strptime(d, from), Strptime(d, to))
  }

  function Difference(from: Option<Moment>, to: Option<Moment>): Option<int>
  {
    if from.Some? && to.Some? then Some(Seconds(to.value) - Seconds(from.value)) else None
  }

  function Nearest(gap: int): int { (gap + 1800) / 3600 }

  /** Within six minutes of `n` hours. At exactly six minutes the outcome of the floating-point comparison is a
      parameter. */
  predicate NearHours(env: Env, gap: int, n: int)
  {
    var off := gap - 3600 * n;
    -360 < off < 360 || ((off == -360 || off == 360) && env.boundary(gap))
  }

  /** Near a whole number of hours, at least one. */
  predicate WholeHours(env: Env, gap: int) { Nearest(gap) >= 1 && NearHours(env, gap, Nearest(gap)) }

  function SkewFinding(env: Env, e: Entry): seq<Finding>
  {
    match Gap(env, e.doc)
    case Some(gap) =>
      if WholeHours(env, gap) then [Found(H013, Blocker, e.path, env.skew(gap, Nearest(gap)))] else []
    case None => []
  }

  function SkewPart(env: Env): Entry -> seq<Finding> { e => SkewFinding(env, e) }

  function SkewOf(env: Env, es: seq<Entry>): seq<Finding> { Flat(es, SkewPart(env)) }

  function RunSkewPart(env: Env): Run -> seq<Finding> { (r: Run) => SkewOf(env, r.entries) }

  function SkewFindings(env: Env, runs: seq<Run>): seq<Finding> { Flat(runs, RunSkewPart(env)) }

  /** Plain stamps on the calendar in both fields. */
  ghost predicate ProperTimes(env: Env, doc: Fields)
  {
    && BothStamps(env.digits, Field(doc, "started_at"), Field(doc, "completed_at"))
    && ProperStamp(env, Field(doc, "started_at")) && ProperStamp(env, Field(doc, "completed_at"))
  }

  predicate ProperStamp(env: Env, v: Option<Json>)
  {
    v.Some? && v.value.Str? && Plain(v.value.s) && OnCalendar(MomentOf(env.digits, v.value.s))
  }

  /** When a stamp is, in seconds. */
  function TimeOf(env: Env, v: Option<Json>): int
    requires v.Some? && v.value.Str? && |v.value.s| >= 20
  {
    Seconds(MomentOf(env.digits, v.value.s))
  }

  /** On proper stamps the string comparison is one of time. */
  lemma BackwardsMeaning(env: Env, doc: Fields)
    requires Unicode(env.digits) && ProperTimes(env, doc)
    ensures Backwards(env.digits, Field(doc, "completed_at"), Field(doc, "started_at")) <==>
            TimeOf(env, Field(doc, "completed_at")) < TimeOf(env, Field(doc, "started_at"))
    ensures Backwards(env.digits, Field(doc, "completed_at"), Field(doc, "started_at")) ==>
            Gap(env, doc) == Some(TimeOf(env, Field(doc, "started_at")) - TimeOf(env, Field(doc, "completed_at")))
  {
    var started, completed := Field(doc, "started_at"), Field(doc, "completed_at");
    LexicalIsChronological(env.digits, completed.value.s, started.value.s);
    PlainParses(env.digits, started.value.s);
    PlainParses(env.digits, completed.value.s);
  }

  /** On proper stamps H003 says that completion precedes the start in time, and H013 that it does so by whole hours. */
  lemma TimeCodesMeaning(env: Env, e: Entry)
    requires Unicode(env.digits) && ProperTimes(env, e.doc)
    ensures var gap := TimeOf(env, Field(e.doc, "started_at")) - TimeOf(env, Field(e.doc, "completed_at"));
            && (Has(DocFindings(env, e.doc, e.path), H003) <==> gap > 0)
            && (Has(SkewFinding(env, e), H013) <==> exists n: int :: n >= 1 && NearHours(env, gap, n))
  {
    DocFindingsMeaning(env, e.doc, e.path);
    BackwardsMeaning(env, e.doc);
    SkewMeaning(env, e);
    NearestHours(env, TimeOf(env, Field(e.doc, "started_at")) - TimeOf(env, Field(e.doc, "completed_at")));
  }

  lemma SkewMeaning(env: Env, e: Entry)
    ensures Has(SkewFinding(env, e), H013) <==> Gap(env, e.doc).Some? && WholeHours(env, Gap(env, e.doc).value)
  {
    var fs := SkewFinding(env, e);
    assert fs != [] ==> fs[0] in fs;
  }

  lemma NearestHours(env: Env, gap: int)
    ensures WholeHours(env, gap) <==> exists n: int :: n >= 1 && NearHours(env, gap, n)
    ensures WholeHours(env, gap) ==> gap > 0
  {
    if n: int :| n >= 1 && NearHours(env, gap, n) { assert Nearest(gap) == n; }
    if WholeHours(env, gap) { assert NearHours(env, gap, Nearest(gap)); }
  }

  /** Whatever the stamps look like: every H013 has a positive gap, and its file carries H003 as well. */
  lemma SkewedFileIsBackwards(env: Env, e: Entry)
    requires SkewFinding(env, e) != []
    ensures Gap(env, e.doc).Some? && Gap(env, e.doc).value >= 3240
    ensures Has(DocFindings(env, e.doc, e.path), H003)
  {
    DocFindingsMeaning(env, e.doc, e.path);
  }

  // ---- orphaned steps --------------------------------------------------------------------------------------

  datatype Phase = Open | Done | Neither

  /** What orphan detection sees of a handoff. */
  datatype Item = Item(path: string, key: StepKey, phase: Phase, status: Option<Json>)

  /** The phase that a status stands for. */
  function PhaseOf(status: Option<Json>): Phase
  {
    if status == Some(Str("COMPLETED")) then Done
    else if status == Some(Str("PENDING")) || status == Some(Str("IN_PROGRESS")) then Open
    else Neither
  }

  function ItemOf(env: Env, e: Entry): Item
  {
    var step := if "step" in e.doc then e.doc["step"] else Str("");
    Item(e.path, StepKeyOf(env.digits, env.stepText(step)), PhaseOf(Status(e.doc)), Status(e.doc))
  }

  function Items(env: Env, es: seq<Entry>): (r: seq<Item>)
    ensures |r| == |es| && forall i | 0 <= i < |es| :: r[i] == ItemOf(env, es[i])
  {
    seq(|es|, i requires 0 <= i < |es| => ItemOf(env, es[i]))
  }

  /** `j` comes after `i` when the run is sorted by step: by key, then in walk order. */
  predicate After(es: seq<Item>, i: nat, j: nat)
    requires i < |es| && j < |es|
  {
    StepLess(es[i].key, es[j].key) || (es[i].key == es[j].key && i < j)
  }

  lemma AfterTransitive(es: seq<Item>, i: nat, j: nat, k: nat)
    requires i < |es| && j < |es| && k < |es| && After(es, i, j) && After(es, j, k)
    ensures After(es, i, k)
  {
    var a, b, c := es[i].key, es[j].key, es[k].key;
    if StepLess(a, b) && StepLess(b, c) { StepTransitive(a, b, c); }
  }

  lemma AfterTotal(es: seq<Item>, i: nat, j: nat)
    requires i < |es| && j < |es|
    ensures i != j ==> After(es, i, j) || After(es, j, i)
    ensures !(After(es, i, j) && After(es, j, i))
  {
    StepTotal(es[i].key, es[j].key);
    StepTotal(es[i].key, es[i].key);
  }

  /** `order` lists the first `n` positions, each once, in sorted order. */
  ghost predicate IsOrder(es: seq<Item>, n: nat, order: seq<nat>)
    requires n <= |es|
  {
    && (forall i: nat :: i in order <==> i < n)
    && forall p, q | 0 <= p < q < |order| :: Ascends(es, order[p], order[q])
  }

  predicate Ascends(es: seq<Item>, i: nat, j: nat) { i < |es| && j < |es| && After(es, i, j) }

  /** Where the next entry goes: after everything that does not sort behind it. */
  function Place(es: seq<Item>, order: seq<nat>, n: nat): (p: nat)
    ensures p <= |order|
  {
    if order == [] || !Ascends(es, n, order[|order| - 1]) then |order| else Place(es, order[..|order| - 1], n)
  }

  lemma {:induction false} PlaceSplits(es: seq<Item>, order: seq<nat>, n: nat)
    requires n < |es| && (forall i | i in order :: i < |es| && i != n)
    requires forall p, q | 0 <= p < q < |order| :: Ascends(es, order[p], order[q])
    ensures var p := Place(es, order, n);
            && (forall k | p <= k < |order| :: Ascends(es, n, order[k]))
            && (forall k | 0 <= k < p :: Ascends(es, order[k], n))
  {
    if order != [] {
      var last := |order| - 1;
      assert order[last] in order;
      AfterTotal(es, n, order[last]);
      if Ascends(es, n, order[last]) {
        assert forall i | i in order[..last] :: i in order;
        PlaceSplits(es, order[..last], n);
      } else {
        forall k | 0 <= k < last ensures Ascends(es, order[k], n) {
          assert Ascends(es, order[k], order[last]);
          AfterTransitive(es, order[k], order[last], n);
        }
      }
    }
  }

  /** `sorted(entries, key=...)` as positions: a stable insertion. */
  function SortedSteps(es: seq<Item>, n: nat): seq<nat>
    requires n <= |es|
  {
    if n == 0 then [] else
    var order := SortedSteps(es, n - 1);
    var p := Place(es, order, n - 1);
    order[..p] + [n - 1] + order[p..]
  }

  lemma {:induction false} SortedIsOrder(es: seq<Item>, n: nat)
    requires n <= |es|
    ensures IsOrder(es, n, SortedSteps(es, n))
  {
    if n > 0 {
      SortedIsOrder(es, n - 1);
      var order := SortedSteps(es, n - 1);
      PlaceSplits(es, order, n - 1);
      Inserted(es, n - 1, order, Place(es, order, n - 1));
    }
  }

  lemma Inserted(es: seq<Item>, n: nat, order: seq<nat>, p: nat)
    requires n < |es| && p <= |order| && IsOrder(es, n, order)
    requires forall k | p <= k < |order| :: Ascends(es, n, order[k])
    requires forall k | 0 <= k < p :: Ascends(es, order[k], n)
    ensures IsOrder(es, n + 1, order[..p] + [n] + order[p..])
  {
    var r := order[..p] + [n] + order[p..];
    forall i: nat ensures i in r <==> i < n + 1 {
      assert i in order <==> i in order[..p] || i in order[p..];
    }
  }

  /** The paths of the completed handoffs at these positions. */
  function CompletedPaths(es: seq<Item>, ids: seq<nat>): seq<string>
  {
    if ids == [] then [] else
    CompletedPaths(es, ids[..|ids| - 1]) +
    var i := ids[|ids| - 1]; if i < |es| && es[i].phase == Done then [es[i].path] else []
  }

  function Later(es: seq<Item>, order: seq<nat>, p: nat): seq<string>
    requires p < |order|
  {
    CompletedPaths(es, order[p + 1..])
  }

  /** The finding for the handoff at rank `p` of the sorted run, if there is one. */
  function OrphanAt(env: Env, id: Json, es: seq<Item>, order: seq<nat>, p: nat): seq<Finding>
    requires p < |order|
  {
    var i := order[p];
    if i < |es| && es[i].phase == Open && Later(es, order, p) != [] then
      [OrphanFinding(env, id, es[i], Later(es, order, p))]
    else []
  }

  function OrphanFinding(env: Env, id: Json, x: Item, later: seq<string>): Finding
  {
    Finding(H009, Major, x.path, env.orphan(if x.status.Some? then x.status.value else Null, |later|, id), later)
  }

  function OrphansUpTo(env: Env, id: Json, es: seq<Item>, order: seq<nat>, n: nat): seq<Finding>
    requires n <= |order|
  {
    if n == 0 then [] else OrphansUpTo(env, id, es, order, n - 1) + OrphanAt(env, id, es, order, n - 1)
  }

  function OrphansOf(env: Env, run: Run): seq<Finding>
  {
    var es := Items(env, run.entries);
    var order := SortedSteps(es, |es|);
    OrphansUpTo(env, run.id, es, order, |order|)
  }

  function OrphanPart(env: Env): Run -> seq<Finding> { r => OrphansOf(env, r) }

  function OrphanFindings(env: Env, runs: seq<Run>): seq<Finding> { Flat(runs, OrphanPart(env)) }

  // ---- which steps are orphans -----------------------------------------------------------------------------

  /** The completed handoff `j` bypasses the handoff `i`. */
  predicate Bypasses(es: seq<Item>, i: nat, j: nat)
  {
    i < |es| && j < |es| && es[j].phase == Done && After(es, i, j)
  }

  /** The paths of the handoffs that bypass `i`. */
  ghost function Bypassing(es: seq<Item>, i: nat): set<string>
  {
    set j: nat | j < |es| && Bypasses(es, i, j) :: es[j].path
  }

  /** `i` is open and bypassed. */
  ghost predicate IsOrphan(es: seq<Item>, i: nat)
  {
    i < |es| && es[i].phase == Open && exists j: nat :: Bypasses(es, i, j)
  }

  ghost predicate DistinctPaths(es: seq<Item>)
  {
    forall i, j | 0 <= i < j < |es| :: es[i].path != es[j].path
  }

  lemma {:induction false} CompletedPathsMeaning(es: seq<Item>, ids: seq<nat>)
    ensures forall s :: s in CompletedPaths(es, ids) <==>
              exists k: nat :: k < |ids| && CompletedAt(es, ids[k], s)
  {
    if ids != [] {
      var n := |ids| - 1;
      CompletedPathsMeaning(es, ids[..n]);
      forall s ensures s in CompletedPaths(es, ids) <==> exists k: nat :: k < |ids| && CompletedAt(es, ids[k], s) {
        if k: nat :| k < |ids| && CompletedAt(es, ids[k], s) {
          assert k < n ==> CompletedAt(es, ids[..n][k], s);
        }
        if s in CompletedPaths(es, ids[..n]) {
          var k: nat :| k < n && CompletedAt(es, ids[..n][k], s);
          assert CompletedAt(es, ids[k], s);
        }
      }
    }
  }

  predicate CompletedAt(es: seq<Item>, i: nat, s: string) { i < |es| && es[i].phase == Done && es[i].path == s }

  ghost predicate NoRepeats(q: seq<string>) { forall a, b | 0 <= a < b < |q| :: q[a] != q[b] }

  lemma {:induction false} CompletedPathsDistinct(es: seq<Item>, ids: seq<nat>)
    requires DistinctPaths(es) && forall a, b | 0 <= a < b < |ids| :: ids[a] != ids[b]
    ensures NoRepeats(CompletedPaths(es, ids))
  {
    if ids != [] {
      var n := |ids| - 1;
      CompletedPathsDistinct(es, ids[..n]);
      CompletedPathsMeaning(es, ids[..n]);
      assert forall k | 0 <= k < n :: ids[..n][k] == ids[k] && ids[k] != ids[n];
      assert ids[n] < |es| ==> es[ids[n]].path !in CompletedPaths(es, ids[..n]);
    }
  }

  /** What follows a handoff in the sorted run is what bypasses it. */
  lemma LaterMeaning(es: seq<Item>, order: seq<nat>, p: nat)
    requires IsOrder(es, |es|, order) && p < |order| && order[p] < |es|
    ensures forall s :: s in Later(es, order, p) <==> s in Bypassing(es, order[p])
    ensures DistinctPaths(es) ==> NoRepeats(Later(es, order, p))
  {
    var i := order[p];
    var tail := order[p + 1..];
    CompletedPathsMeaning(es, tail);
    forall s ensures s in Later(es, order, p) <==> s in Bypassing(es, i) {
      if s in Later(es, order, p) {
        var k: nat :| k < |tail| && CompletedAt(es, tail[k], s);
        assert Ascends(es, order[p], order[p + 1 + k]);
        assert Bypasses(es, i, tail[k]);
      }
      if s in Bypassing(es, i) {
        var j: nat :| j < |es| && Bypasses(es, i, j) && es[j].path == s;
        assert j in order;
        var q :| 0 <= q < |order| && order[q] == j;
        RankAfter(es, order, p, q);
        assert CompletedAt(es, tail[q - p - 1], s);
      }
    }
    if DistinctPaths(es) {
      forall a, b | 0 <= a < b < |tail| ensures tail[a] != tail[b] {
        assert Ascends(es, order[p + 1 + a], order[p + 1 + b]);
        AfterTotal(es, tail[a], tail[b]);
      }
      CompletedPathsDistinct(es, tail);
    }
  }

  lemma RankAfter(es: seq<Item>, order: seq<nat>, p: nat, q: nat)
    requires IsOrder(es, |es|, order) && p < |order| && q < |order| && order[p] < |es| && order[q] < |es|
    requires After(es, order[p], order[q])
    ensures p < q
  {
    AfterTotal(es, order[p], order[q]);
    AfterTotal(es, order[p], order[p]);
    assert q < p ==> Ascends(es, order[q], order[p]);
  }

  /** `f` is the finding for the handoff at walk position `i`. */
  ghost predicate Reports(env: Env, id: Json, es: seq<Item>, i: nat, f: Finding)
  {
    && IsOrphan(es, i)
    && (forall s :: s in f.later <==> s in Bypassing(es, i))
    && (DistinctPaths(es) ==> NoRepeats(f.later))
    && f == OrphanFinding(env, id, es[i], f.later)
  }

  lemma OrphanAtMeaning(env: Env, id: Json, es: seq<Item>, order: seq<nat>, p: nat)
    requires IsOrder(es, |es|, order) && p < |order| && order[p] < |es|
    ensures IsOrphan(es, order[p]) <==> OrphanAt(env, id, es, order, p) != []
    ensures forall f | f in OrphanAt(env, id, es, order, p) :: Reports(env, id, es, order[p], f)
  {
    var i := order[p];
    LaterMeaning(es, order, p);
    var later := Later(es, order, p);
    if later != [] {
      assert later[0] in later;
      var j: nat :| j < |es| && Bypasses(es, i, j) && es[j].path == later[0];
    }
    if j: nat :| Bypasses(es, i, j) { assert es[j].path in Bypassing(es, i); }
  }

  lemma {:induction false} OrphansUpToMembers(env: Env, id: Json, es: seq<Item>, order: seq<nat>, n: nat)
    requires n <= |order|
    ensures forall f :: f in OrphansUpTo(env, id, es, order, n) <==>
                        exists p: nat :: p < n && f in OrphanAt(env, id, es, order, p)
  {
    if n > 0 {
      OrphansUpToMembers(env, id, es, order, n - 1);
    }
  }

  /** The findings of a run: one for each orphan, telling exactly which steps bypass it. */
  lemma OrphansMeaning(env: Env, run: Run)
    ensures forall f | f in OrphansOf(env, run) :: exists i: nat :: Reports(env, run.id, Items(env, run.entries), i, f)
    ensures forall i: nat | IsOrphan(Items(env, run.entries), i) ::
              exists f :: f in OrphansOf(env, run) && Reports(env, run.id, Items(env, run.entries), i, f)
  {
    var es, id := Items(env, run.entries), run.id;
    var order := SortedSteps(es, |es|);
    SortedIsOrder(es, |es|);
    OrphansUpToMembers(env, id, es, order, |order|);
    forall f | f in OrphansOf(env, run) ensures exists i: nat :: Reports(env, run.id, Items(env, run.entries), i, f) {
      var p: nat :| p < |order| && f in OrphanAt(env, id, es, order, p);
      assert order[p] in order;
      OrphanAtMeaning(env, id, es, order, p);
      assert Reports(env, id, es, order[p], f);
    }
    forall i: nat | IsOrphan(es, i)
      ensures exists f :: f in OrphansOf(env, run) && Reports(env, run.id, Items(env, run.entries), i, f)
    {
      assert i in order;
      var p: nat :| p < |order| && order[p] == i;
      OrphanAtMeaning(env, id, es, order, p);
      assert OrphanAt(env, id, es, order, p)[0] in OrphanAt(env, id, es, order, p);
    }
  }

  // ---- independence of the walk order ----------------------------------------------------------------------

  /** Two walks over the same files. */
  ghost predicate SameFiles(es: seq<Item>, fs: seq<Item>)
  {
    DistinctPaths(es) && DistinctPaths(fs) && forall e :: e in es <==> e in fs
  }

  /** No open handoff shares its step key with a completed one. */
  ghost predicate NoTie(es: seq<Item>)
  {
    forall x, y | x in es && y in es && x.phase == Open && y.phase == Done :: x.key != y.key
  }

  /** The walk reports `path` as bypassed by `later`. */
  ghost predicate Fact(es: seq<Item>, path: string, later: set<string>)
  {
    exists i: nat :: i < |es| && es[i].path == path && IsOrphan(es, i) && Bypassing(es, i) == later
  }

  lemma BypassingSame(es: seq<Item>, fs: seq<Item>, i: nat, k: nat)
    requires SameFiles(es, fs) && NoTie(es) && i < |es| && k < |fs| && es[i] == fs[k] && es[i].phase == Open
    ensures Bypassing(es, i) <= Bypassing(fs, k)
  {
    forall s | s in Bypassing(es, i) ensures s in Bypassing(fs, k) {
      var j: nat :| j < |es| && Bypasses(es, i, j) && es[j].path == s;
      assert es[i] in es && es[j] in es && es[j] in fs;
      var m: nat :| m < |fs| && fs[m] == es[j];
      assert Bypasses(fs, k, m);
    }
  }

  lemma NoTieSame(es: seq<Item>, fs: seq<Item>)
    requires SameFiles(es, fs) && NoTie(es)
    ensures NoTie(fs) && SameFiles(fs, es)
  {
  }

  lemma OrphanMoves(es: seq<Item>, fs: seq<Item>, i: nat)
    requires SameFiles(es, fs) && NoTie(es) && IsOrphan(es, i)
    ensures exists k: nat :: k < |fs| && fs[k] == es[i] && IsOrphan(fs, k)
                             && Bypassing(fs, k) == Bypassing(es, i)
  {
    assert es[i] in es && es[i] in fs;
    var k: nat :| k < |fs| && fs[k] == es[i];
    BypassingSame(es, fs, i, k);
    NoTieSame(es, fs);
    BypassingSame(fs, es, k, i);
    var j: nat :| Bypasses(es, i, j);
    assert es[j].path in Bypassing(es, i);
    var m: nat :| m < |fs| && Bypasses(fs, k, m) && fs[m].path == es[j].path;
  }

  /** All entries but two. */
  function Others(es: seq<Item>, x: Item, y: Item): (r: seq<Item>)
  {
    if es == [] then [] else (if es[0] == x || es[0] == y then [] else [es[0]]) + Others(es[1..], x, y)
  }

  lemma {:induction false} OthersMeaning(es: seq<Item>, x: Item, y: Item)
    requires DistinctPaths(es)
    ensures forall e :: e in Others(es, x, y) <==> e in es && e != x && e != y
    ensures DistinctPaths(Others(es, x, y))
  {
    if es != [] {
      OthersMeaning(es[1..], x, y);
      assert forall e | e in es[1..] :: e.path != es[0].path;
    }
  }

  lemma PairFirst(es: seq<Item>, x: Item, y: Item)
    requires DistinctPaths(es) && x in es && y in es && x != y
    ensures SameFiles(es, [x, y] + Others(es, x, y))
  {
    OthersMeaning(es, x, y);
    var r := Others(es, x, y);
    assert x.path != y.path;
    forall e | e in r ensures e.path != x.path && e.path != y.path {
      assert e in es;
    }
    var w := [x, y] + r;
    forall i, j | 0 <= i < j < |w| ensures w[i].path != w[j].path {
      if j >= 2 {
        assert w[j] == r[j - 2] && r[j - 2] in r;
        if i >= 2 { assert w[i] == r[i - 2]; }
      }
    }
    forall e ensures e in es <==> e in w {
      assert e in w <==> e == x || e == y || e in r;
    }
  }

  /** What a run reports is independent of the walk order exactly if no open handoff ties with a completed one. */
  lemma WalkOrderIrrelevantIff(es: seq<Item>)
    requires DistinctPaths(es)
    ensures NoTie(es) <==>
            forall fs: seq<Item> | SameFiles(es, fs) ::
              forall path, later :: Fact(es, path, later) <==> Fact(fs, path, later)
  {
    if NoTie(es) {
      forall fs: seq<Item>, path, later | SameFiles(es, fs)
        ensures Fact(es, path, later) <==> Fact(fs, path, later)
      {
        FactMoves(es, fs, path, later);
        NoTieSame(es, fs);
        FactMoves(fs, es, path, later);
      }
    } else {
      TieMatters(es);
    }
  }

  lemma FactMoves(es: seq<Item>, fs: seq<Item>, path: string, later: set<string>)
    requires SameFiles(es, fs) && NoTie(es)
    ensures Fact(es, path, later) ==> Fact(fs, path, later)
  {
    if Fact(es, path, later) {
      var i: nat :| i < |es| && es[i].path == path && IsOrphan(es, i) && Bypassing(es, i) == later;
      OrphanMoves(es, fs, i);
    }
  }

  /** With the completed handoff of a tie first, it does not bypass the open one. */
  lemma TieReversed(x: Item, y: Item, rest: seq<Item>, later: set<string>)
    requires DistinctPaths([y, x] + rest) && x.key == y.key && y.path in later
    ensures !Fact([y, x] + rest, x.path, later)
  {
    var gs := [y, x] + rest;
    if i: nat :| i < |gs| && gs[i].path == x.path && IsOrphan(gs, i) && Bypassing(gs, i) == later {
      assert gs[1].path == x.path && i == 1;
      var j: nat :| j < |gs| && Bypasses(gs, 1, j) && gs[j].path == y.path;
      assert gs[0].path == y.path && j == 0;
      StepTotal(x.key, x.key);
    }
  }

  lemma TieMatters(es: seq<Item>)
    requires DistinctPaths(es) && !NoTie(es)
    ensures exists fs: seq<Item>, path, later :: SameFiles(es, fs) && Fact(es, path, later) != Fact(fs, path, later)
  {
    var x, y :| x in es && y in es && x.phase == Open && y.phase == Done && x.key == y.key;
    PairFirst(es, x, y);
    PairFirst(es, y, x);
    var fs, gs := [x, y] + Others(es, x, y), [y, x] + Others(es, y, x);
    assert Bypasses(fs, 0, 1) && IsOrphan(fs, 0);
    var later := Bypassing(fs, 0);
    assert fs[1].path in later;
    assert Fact(fs, x.path, later);
    TieReversed(x, y, Others(es, y, x), later);
    assert Fact(es, x.path, later) != Fact(fs, x.path, later) || Fact(es, x.path, later) != Fact(gs, x.path, later);
  }
}
