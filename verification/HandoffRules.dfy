/** What the handoff linter promises, said of the handoffs themselves, and that its checks keep the promise. */
module HandoffRules {
  import opened Orders
  import opened Registry
  import opened Handoffs
  import opened Timestamps
  import opened HandoffLint
  import Backfill

  // ---- the order of steps ----------------------------------------------------------------------------------

  /** The text starts with exactly `k` digits. */
  ghost predicate LeadingDigits(d: Digits, s: string, k: nat)
  {
    k <= |s| && (forall i | 0 <= i < k :: d(s[i]).Some?) && (k < |s| ==> d(s[k]).None?)
  }

  ghost predicate StartsOrEndsWithFinal(s: string)
  {
    (exists rest :: s == "final" + rest) || exists rest :: s == rest + "final"
  }

  /** `line` is `s` up to its first newline. */
  ghost predicate UpToNewline(line: string, s: string)
  {
    line <= s && '\n' !in line && (|line| < |s| ==> s[|line|] == '\n')
  }

  /** A step sorts by number and then by text. A final step has number 9999, a numbered one its own number, with the
      rest of the line as its text, and any other step has 5000. */
  ghost predicate SortsAs(d: Digits, s: string, number: nat, text: string)
  {
    if StartsOrEndsWithFinal(s) then number == 9999 && text == s
    else if s == "" || d(s[0]).None? then number == 5000 && text == s
    else exists k: nat :: LeadingDigits(d, s, k) && number == Number(d, s[..k]) && UpToNewline(text, s[k..])
  }

  lemma FinalMeaning(s: string)
    ensures IsFinal(s) <==> StartsOrEndsWithFinal(s)
  {
    if "final" <= s { assert s == "final" + s[5..]; }
    if |s| >= 5 && s[|s| - 5..] == "final" { assert s == s[..|s| - 5] + "final"; }
    if rest :| s == rest + "final" { assert s[|s| - 5..] == "final"; }
  }

  lemma {:induction false} FirstLineMeaning(s: string, line: string)
    ensures UpToNewline(line, s) <==> line == FirstLine(s)
  {
    if s != [] && s[0] != '\n' {
      assert s == [s[0]] + s[1..];
      FirstLineMeaning(s[1..], FirstLine(s[1..]));
      assert UpToNewline(FirstLine(s), s);
      if UpToNewline(line, s) {
        assert line != [] && line == [s[0]] + line[1..];
        assert forall i | 0 <= i < |line| - 1 :: line[1..][i] == line[i + 1];
        assert UpToNewline(line[1..], s[1..]);
        FirstLineMeaning(s[1..], line[1..]);
      }
    } else {
      assert line != [] ==> line[0] in line;
    }
  }

  lemma StepKeyMeaning(d: Digits, s: string, number: nat, text: string)
    ensures SortsAs(d, s, number, text) <==> StepKeyOf(d, s) == StepKey(number, text)
  {
    FinalMeaning(s);
    var n := DigitRun(d, s);
    assert LeadingDigits(d, s, n);
    assert forall k: nat | LeadingDigits(d, s, k) :: k == n;
    FirstLineMeaning(s[n..], text);
  }

  /** `s` sorts strictly before `t`. */
  ghost predicate StepBefore(d: Digits, s: string, t: string)
  {
    exists m, u, n, v :: SortsAs(d, s, m, u) && SortsAs(d, t, n, v) && (m < n || (m == n && StrLess(u, v)))
  }

  lemma StepBeforeMeaning(d: Digits, s: string, t: string)
    ensures StepBefore(d, s, t) <==> StepLess(StepKeyOf(d, s), StepKeyOf(d, t))
  {
    var a, b := StepKeyOf(d, s), StepKeyOf(d, t);
    forall m, u ensures SortsAs(d, s, m, u) <==> a == StepKey(m, u) { StepKeyMeaning(d, s, m, u); }
    forall m, u ensures SortsAs(d, t, m, u) <==> b == StepKey(m, u) { StepKeyMeaning(d, t, m, u); }
    assert SortsAs(d, s, a.number, a.text) && SortsAs(d, t, b.number, b.text);
  }

  /** The number that a step starts with. */
  ghost predicate Numbered(d: Digits, s: string, n: nat)
  {
    !StartsOrEndsWithFinal(s) && exists k: nat :: k > 0 && LeadingDigits(d, s, k) && n == Number(d, s[..k])
  }

  ghost predicate Unnumbered(d: Digits, s: string)
  {
    !StartsOrEndsWithFinal(s) && (s == "" || d(s[0]).None?)
  }

  lemma NumberedKey(d: Digits, s: string, n: nat)
    requires Numbered(d, s, n)
    ensures StepKeyOf(d, s).number == n
  {
    FinalMeaning(s);
    var k: nat :| k > 0 && LeadingDigits(d, s, k) && n == Number(d, s[..k]);
    assert k == DigitRun(d, s);
  }

  /** Numbered steps run by number; a step without one comes after those below 5000 and before those above; a final step
      comes after both, unless the number is 9999 or more. */
  lemma StepOrder(d: Digits, s: string, t: string, m: nat, n: nat)
    ensures Numbered(d, s, m) && Numbered(d, t, n) && m < n ==> StepBefore(d, s, t)
    ensures Numbered(d, s, m) && Unnumbered(d, t) ==>
              (m < 5000 ==> StepBefore(d, s, t)) && (m > 5000 ==> StepBefore(d, t, s))
    ensures Numbered(d, s, m) && StartsOrEndsWithFinal(t) ==>
              (m < 9999 ==> StepBefore(d, s, t)) && (m > 9999 ==> StepBefore(d, t, s))
    ensures Unnumbered(d, s) && StartsOrEndsWithFinal(t) ==> StepBefore(d, s, t)
  {
    FinalMeaning(s);
    FinalMeaning(t);
    StepBeforeMeaning(d, s, t);
    StepBeforeMeaning(d, t, s);
    if Numbered(d, s, m) { NumberedKey(d, s, m); }
    if Numbered(d, t, n) { NumberedKey(d, t, n); }
  }

  // ---- orphaned steps --------------------------------------------------------------------------------------

  ghost predicate HasStatus(e: Entry, status: string) { "status" in e.doc && e.doc["status"] == Str(status) }

  /** The text by which a handoff is sorted: that of its step, or of an empty one. */
  ghost function SortText(env: Env, e: Entry): string
  {
    env.stepText(if "step" in e.doc then e.doc["step"] else Str(""))
  }

  /** In the run sorted by step, the handoff at walk position `j` comes after the one at `i`. */
  ghost predicate SortsAfter(env: Env, es: seq<Entry>, i: nat, j: nat)
  {
    && i < |es| && j < |es|
    && var s, t := SortText(env, es[i]), SortText(env, es[j]);
       StepBefore(env.digits, s, t) || (!StepBefore(env.digits, t, s) && i < j)
  }

  /** A completed handoff comes after the one at `i`. */
  ghost predicate RanPast(env: Env, es: seq<Entry>, i: nat, j: nat)
  {
    SortsAfter(env, es, i, j) && HasStatus(es[j], "COMPLETED")
  }

  /** The handoff is pending or in progress, and a completed one comes after it. */
  ghost predicate Orphaned(env: Env, es: seq<Entry>, i: nat)
  {
    && i < |es| && (HasStatus(es[i], "PENDING") || HasStatus(es[i], "IN_PROGRESS"))
    && exists j: nat :: RanPast(env, es, i, j)
  }

  /** `at` lists positions in the order of the sorted run, each once. */
  ghost predicate InStepOrder(env: Env, es: seq<Entry>, at: seq<nat>)
  {
    forall p, q | 0 <= p < q < |at| :: SortsAfter(env, es, at[p], at[q])
  }

  /** `paths` are the handoffs that ran past the one at `i`, in step order. */
  ghost predicate ListsPasses(env: Env, es: seq<Entry>, i: nat, paths: seq<string>)
  {
    exists at: seq<nat> :: InStepOrder(env, es, at) && (forall j: nat :: j in at <==> RanPast(env, es, i, j)) &&
                           PathsAt(es, at, paths)
  }

  ghost predicate PathsAt(es: seq<Entry>, at: seq<nat>, paths: seq<string>)
  {
    |at| == |paths| && forall k | 0 <= k < |at| :: at[k] < |es| && paths[k] == es[at[k]].path
  }

  /** `f` is H009 for the handoff at `i`. */
  ghost predicate TellsOrphan(env: Env, run: Run, i: nat, f: Finding)
  {
    && Orphaned(env, run.entries, i)
    && f.code == H009 && f.severity == Major && f.path == run.entries[i].path
    && f.message == env.orphan(run.entries[i].doc["status"], |f.later|, run.id)
    && ListsPasses(env, run.entries, i, f.later)
  }

  /** The findings are those of the handoffs at these positions. */
  ghost predicate Told(env: Env, run: Run, at: seq<nat>, fs: seq<Finding>)
  {
    |at| == |fs| && forall k | 0 <= k < |at| :: TellsOrphan(env, run, at[k], fs[k])
  }

  /** `fs` has one H009 for each orphaned handoff of the run, in step order, and nothing else. */
  ghost predicate OrphanReport(env: Env, run: Run, fs: seq<Finding>)
  {
    exists at: seq<nat> :: InStepOrder(env, run.entries, at) &&
                           (forall i: nat :: i in at <==> Orphaned(env, run.entries, i)) &&
                           Told(env, run, at, fs)
  }

  lemma SortsAfterMeaning(env: Env, es: seq<Entry>, i: nat, j: nat)
    requires i < |es| && j < |es|
    ensures SortsAfter(env, es, i, j) <==> After(Items(env, es), i, j)
  {
    var s, t := SortText(env, es[i]), SortText(env, es[j]);
    StepBeforeMeaning(env.digits, s, t);
    StepBeforeMeaning(env.digits, t, s);
    StepTotal(StepKeyOf(env.digits, s), StepKeyOf(env.digits, t));
  }

  lemma PhaseMeaning(env: Env, es: seq<Entry>, i: nat)
    requires i < |es|
    ensures Items(env, es)[i].phase == Done <==> HasStatus(es[i], "COMPLETED")
    ensures Items(env, es)[i].phase == Open <==> HasStatus(es[i], "PENDING") || HasStatus(es[i], "IN_PROGRESS")
    ensures Items(env, es)[i].status == if "status" in es[i].doc then Some(es[i].doc["status"]) else None
  {
  }

  /** The positions among `ids` whose handoff is completed. */
  ghost function CompletedIn(es: seq<Item>, ids: seq<nat>): seq<nat>
  {
    if ids == [] then [] else
    CompletedIn(es, ids[..|ids| - 1]) +
    var i := ids[|ids| - 1]; if i < |es| && es[i].phase == Done then [i] else []
  }

  lemma {:induction false} CompletedInMeaning(env: Env, es: seq<Entry>, ids: seq<nat>)
    requires InStepOrder(env, es, ids)
    ensures var items := Items(env, es);
            var at := CompletedIn(items, ids);
            && InStepOrder(env, es, at) && PathsAt(es, at, CompletedPaths(items, ids))
            && forall j: nat :: j in at <==> j in ids && j < |es| && HasStatus(es[j], "COMPLETED")
  {
    if ids != [] {
      var init, last := ids[..|ids| - 1], ids[|ids| - 1];
      assert ids == init + [last];
      CompletedInMeaning(env, es, init);
      if last < |es| { PhaseMeaning(env, es, last); }
      forall j | j in init ensures SortsAfter(env, es, j, last) {
        var p :| 0 <= p < |init| && init[p] == j;
        assert SortsAfter(env, es, ids[p], ids[|ids| - 1]);
      }
    }
  }

  /** What follows rank `p` of the sorted run. */
  lemma TailIsAfter(env: Env, es: seq<Entry>, order: seq<nat>, p: nat)
    requires IsOrder(Items(env, es), |es|, order) && p < |order|
    ensures order[p] < |es| && InStepOrder(env, es, order[p + 1..])
    ensures forall j: nat :: j in order[p + 1..] <==> SortsAfter(env, es, order[p], j)
  {
    var items, tail := Items(env, es), order[p + 1..];
    assert order[p] in order;
    forall a, b | 0 <= a < b < |order| ensures SortsAfter(env, es, order[a], order[b]) {
      assert Ascends(items, order[a], order[b]);
      SortsAfterMeaning(env, es, order[a], order[b]);
    }
    forall j: nat ensures j in tail <==> SortsAfter(env, es, order[p], j) {
      if j in tail {
        var k :| 0 <= k < |tail| && tail[k] == j;
        assert order[p + 1 + k] == j;
      }
      if SortsAfter(env, es, order[p], j) {
        SortsAfterMeaning(env, es, order[p], j);
        assert j in order;
        var q :| 0 <= q < |order| && order[q] == j;
        RankAfter(items, order, p, q);
        assert tail[q - p - 1] == j;
      }
    }
  }

  lemma PassesAreListed(env: Env, es: seq<Entry>, order: seq<nat>, p: nat)
    requires IsOrder(Items(env, es), |es|, order) && p < |order|
    ensures ListsPasses(env, es, order[p], Later(Items(env, es), order, p))
    ensures Later(Items(env, es), order, p) != [] <==> exists j: nat :: RanPast(env, es, order[p], j)
  {
    var tail, i := order[p + 1..], order[p];
    TailIsAfter(env, es, order, p);
    CompletedInMeaning(env, es, tail);
    var at := CompletedIn(Items(env, es), tail);
    assert forall j: nat :: j in at <==> RanPast(env, es, i, j);
    if at != [] { assert at[0] in at; }
  }

  /** The finding at rank `p`: none, or that of an orphan. */
  lemma RankTells(env: Env, run: Run, order: seq<nat>, p: nat)
    requires IsOrder(Items(env, run.entries), |run.entries|, order) && p < |order|
    ensures OrphanAt(env, run.id, Items(env, run.entries), order, p) ==
            if Orphaned(env, run.entries, order[p])
            then [OrphanFinding(env, run.id, Items(env, run.entries)[order[p]],
                                Later(Items(env, run.entries), order, p))]
            else []
    ensures Orphaned(env, run.entries, order[p]) ==>
              TellsOrphan(env, run, order[p], OrphanAt(env, run.id, Items(env, run.entries), order, p)[0])
  {
    assert order[p] in order;
    PassesAreListed(env, run.entries, order, p);
    PhaseMeaning(env, run.entries, order[p]);
  }

  lemma ToldStep(env: Env, run: Run, at: seq<nat>, fs: seq<Finding>, i: nat, f: Finding)
    requires Told(env, run, at, fs) && TellsOrphan(env, run, i, f)
    ensures Told(env, run, at + [i], fs + [f])
  {
  }

  lemma InOrderStep(env: Env, es: seq<Entry>, order: seq<nat>, n: nat, at: seq<nat>)
    requires IsOrder(Items(env, es), |es|, order) && n < |order|
    requires InStepOrder(env, es, at) && forall i | i in at :: i in order[..n]
    ensures InStepOrder(env, es, at + [order[n]])
  {
    forall k | 0 <= k < |at| ensures SortsAfter(env, es, at[k], order[n]) {
      assert at[k] in order[..n];
      var q :| 0 <= q < n && order[q] == at[k];
      assert Ascends(Items(env, es), order[q], order[n]);
      SortsAfterMeaning(env, es, order[q], order[n]);
    }
  }

  lemma {:induction false} RanksTell(env: Env, run: Run, order: seq<nat>, n: nat) returns (at: seq<nat>)
    requires IsOrder(Items(env, run.entries), |run.entries|, order) && n <= |order|
    ensures InStepOrder(env, run.entries, at)
    ensures forall i :: i in at <==> i in order[..n] && Orphaned(env, run.entries, i)
    ensures Told(env, run, at, OrphansUpTo(env, run.id, Items(env, run.entries), order, n))
  {
    if n == 0 { return []; }
    at := RanksTell(env, run, order, n - 1);
    RankTells(env, run, order, n - 1);
    assert order[..n] == order[..n - 1] + [order[n - 1]];
    var fs := OrphansUpTo(env, run.id, Items(env, run.entries), order, n - 1);
    if Orphaned(env, run.entries, order[n - 1]) {
      InOrderStep(env, run.entries, order, n - 1, at);
      ToldStep(env, run, at, fs, order[n - 1], OrphanAt(env, run.id, Items(env, run.entries), order, n - 1)[0]);
      at := at + [order[n - 1]];
    } else {
      assert fs + [] == fs;
    }
  }

  /** The linter reports the orphaned handoffs of a run. */
  lemma OrphansAreReported(env: Env, run: Run)
    ensures OrphanReport(env, run, OrphansOf(env, run))
  {
    var items := Items(env, run.entries);
    var order := SortedSteps(items, |items|);
    SortedIsOrder(items, |items|);
    var at := RanksTell(env, run, order, |order|);
    assert order[..|order|] == order;
    forall i: nat ensures i in at <==> Orphaned(env, run.entries, i) {
      assert i < |items| <==> i in order;
    }
  }

  // ---- the findings of one file ----------------------------------------------------------------------------

  /** The field is a timestamp. */
  ghost predicate IsStamp(d: Digits, doc: Fields, k: string)
  {
    k in doc && doc[k].Str? && LooksLikeStamp(d, doc[k].s)
  }

  /** Both fields are timestamps, and the first has the smaller character where they first differ, or is the other
      without its newline. */
  ghost predicate StampsReversed(d: Digits, doc: Fields, a: string, b: string)
  {
    && IsStamp(d, doc, a) && IsStamp(d, doc, b)
    && (doc[a].s < doc[b].s || exists k: nat :: SmallerAt(doc[a].s, doc[b].s, k))
  }

  lemma ReversedMeaning(d: Digits, doc: Fields, a: string, b: string)
    ensures StampsReversed(d, doc, a, b) <==> Backwards(d, Field(doc, a), Field(doc, b))
  {
    if a in doc && b in doc && doc[a].Str? && doc[b].Str? {
      var s, t := doc[a].s, doc[b].s;
      StampMeaning(d, s);
      StampMeaning(d, t);
      StrLeqMeaning(s, t);
      StrLeqMeaning(t, s);
      StrTotal(s, t);
      StrTotal(s, s);
      assert s == t ==> forall k: nat :: !SmallerAt(s, t, k);
    }
  }

  /** The file carries the finding. */
  ghost predicate Deserves(env: Env, doc: Fields, path: string, f: Finding)
  {
    && f.path == path && f.later == []
    && match f.code
       case H002 => f.severity == Blocker && f.message == env.resultString && "result" in doc && doc["result"].Str?
       case H003 =>
         f.severity == Blocker && StampsReversed(env.digits, doc, "completed_at", "started_at") &&
         f.message == env.backwards(doc["completed_at"].s, doc["started_at"].s)
       case H004 =>
         f.severity == Blocker && StampsReversed(env.digits, doc, "started_at", "created_at") &&
         f.message == env.early(doc["started_at"].s, doc["created_at"].s)
       case H005 =>
         f.severity == Blocker && f.message == env.unset && "status" in doc && doc["status"] == Str("COMPLETED") &&
         ("completed_at" in doc ==> !Backfill.PythonTrue(doc["completed_at"]))
       case H006 =>
         f.severity == Blocker && HasIllegalState(doc) && f.message == env.illegal(doc["result"].fields["status"])
       case H007 => f.severity == Major && exists k :: LacksKey(doc, k) && f.message == env.missing(k)
       case _ => false
  }

  /** `result.status` is there, is not null, and is none of the five legal values. */
  ghost predicate HasIllegalState(doc: Fields)
  {
    && "result" in doc && doc["result"].Obj? && "status" in doc["result"].fields
    && var st := doc["result"].fields["status"];
       st !in [Null, Str("PASS"), Str("FAIL"), Str("PARTIAL"), Str("BLOCKED"), Str("SKIPPED")]
  }

  ghost predicate LacksKey(doc: Fields, k: string)
  {
    k !in doc && k in ["handoff_id", "run_id", "step", "from_agent", "to_agent", "created_at", "status"]
  }

  lemma {:induction false} MissingKeysMeaning(env: Env, doc: Fields, path: string, n: nat)
    requires n <= |Backfill.REQUIRED|
    ensures forall f :: f in MissingKeys(env, doc, path, n) <==>
                        exists k :: k in Backfill.REQUIRED[..n] && k !in doc &&
                          f == Found(H007, Major, path, env.missing(k))
  {
    if n > 0 {
      MissingKeysMeaning(env, doc, path, n - 1);
      assert Backfill.REQUIRED[..n] == Backfill.REQUIRED[..n - 1] + [Backfill.REQUIRED[n - 1]];
    }
  }

  lemma AllMissingKeys(env: Env, doc: Fields, path: string, f: Finding)
    ensures f in MissingKeys(env, doc, path, |Backfill.REQUIRED|) <==>
            f.code == H007 && Deserves(env, doc, path, f)
  {
    MissingKeysMeaning(env, doc, path, |Backfill.REQUIRED|);
    assert Backfill.REQUIRED[..|Backfill.REQUIRED|] == Backfill.REQUIRED;
    assert forall k :: LacksKey(doc, k) <==> k in Backfill.REQUIRED && k !in doc;
  }

  lemma TimesMeaning(env: Env, doc: Fields, path: string, f: Finding)
    ensures f in TimeFindings(env, doc, path) <==> f.code in {H003, H004, H005} && Deserves(env, doc, path, f)
  {
    ReversedMeaning(env.digits, doc, "completed_at", "started_at");
    ReversedMeaning(env.digits, doc, "started_at", "created_at");
    if "completed_at" in doc { Backfill.TruthMeaning(doc["completed_at"]); }
  }

  lemma ResultMeaning(env: Env, doc: Fields, path: string, f: Finding)
    ensures f in ResultFindings(env, doc, path) <==> f.code in {H002, H006} && Deserves(env, doc, path, f)
  {
    IllegalMeaning(doc);
  }

  lemma IllegalMeaning(doc: Fields)
    ensures HasIllegalState(doc) <==> IllegalResult(doc)
  {
  }

  /** The linter finds in a handoff exactly what it deserves. */
  lemma DocFindingsExactly(env: Env, doc: Fields, path: string, f: Finding)
    ensures f in DocFindings(env, doc, path) <==> Deserves(env, doc, path, f)
  {
    AllMissingKeys(env, doc, path, f);
    TimesMeaning(env, doc, path, f);
    ResultMeaning(env, doc, path, f);
  }

  /** The same with multiplicity and in order. */
  ghost function DueFindings(env: Env, doc: Fields, path: string): seq<Finding>
  {
    DueKey(env, doc, path, "handoff_id") + DueKey(env, doc, path, "run_id") + DueKey(env, doc, path, "step") +
    DueKey(env, doc, path, "from_agent") + DueKey(env, doc, path, "to_agent") + DueKey(env, doc, path, "created_at") +
    DueKey(env, doc, path, "status") + DueTimes(env, doc, path) + DueResult(env, doc, path)
  }

  ghost function DueKey(env: Env, doc: Fields, path: string, k: string): seq<Finding>
  {
    if k in doc then [] else [Finding(H007, Major, path, env.missing(k), [])]
  }

  ghost function DueTimes(env: Env, doc: Fields, path: string): seq<Finding>
  {
    (if StampsReversed(env.digits, doc, "completed_at", "started_at")
     then [Finding(H003, Blocker, path, env.backwards(doc["completed_at"].s, doc["started_at"].s), [])] else []) +
    (if StampsReversed(env.digits, doc, "started_at", "created_at")
     then [Finding(H004, Blocker, path, env.early(doc["started_at"].s, doc["created_at"].s), [])] else []) +
    (if "status" in doc && doc["status"] == Str("COMPLETED") &&
        ("completed_at" in doc ==> !Backfill.PythonTrue(doc["completed_at"]))
     then [Finding(H005, Blocker, path, env.unset, [])] else [])
  }

  ghost function DueResult(env: Env, doc: Fields, path: string): seq<Finding>
  {
    if "result" in doc && doc["result"].Str? then [Finding(H002, Blocker, path, env.resultString, [])]
    else if HasIllegalState(doc) then
      [Finding(H006, Blocker, path, env.illegal(doc["result"].fields["status"]), [])]
    else []
  }

  lemma DueKeysMeaning(env: Env, doc: Fields, path: string)
    ensures MissingKeys(env, doc, path, 7) ==
            DueKey(env, doc, path, "handoff_id") + DueKey(env, doc, path, "run_id") + DueKey(env, doc, path, "step") +
            DueKey(env, doc, path, "from_agent") + DueKey(env, doc, path, "to_agent") +
            DueKey(env, doc, path, "created_at") + DueKey(env, doc, path, "status")
  {
    assert MissingKeys(env, doc, path, 0) == [];
    forall n | 1 <= n <= 7
      ensures MissingKeys(env, doc, path, n) ==
              MissingKeys(env, doc, path, n - 1) + DueKey(env, doc, path, Backfill.REQUIRED[n - 1])
    {
    }
    assert MissingKeys(env, doc, path, 1) == DueKey(env, doc, path, "handoff_id");
    assert MissingKeys(env, doc, path, 2) == MissingKeys(env, doc, path, 1) + DueKey(env, doc, path, "run_id");
    assert MissingKeys(env, doc, path, 3) == MissingKeys(env, doc, path, 2) + DueKey(env, doc, path, "step");
    assert MissingKeys(env, doc, path, 4) == MissingKeys(env, doc, path, 3) + DueKey(env, doc, path, "from_agent");
    assert MissingKeys(env, doc, path, 5) == MissingKeys(env, doc, path, 4) + DueKey(env, doc, path, "to_agent");
    assert MissingKeys(env, doc, path, 6) == MissingKeys(env, doc, path, 5) + DueKey(env, doc, path, "created_at");
    assert MissingKeys(env, doc, path, 7) == MissingKeys(env, doc, path, 6) + DueKey(env, doc, path, "status");
  }

  lemma DueTimesMeaning(env: Env, doc: Fields, path: string)
    ensures TimeFindings(env, doc, path) == DueTimes(env, doc, path)
  {
    ReversedMeaning(env.digits, doc, "completed_at", "started_at");
    ReversedMeaning(env.digits, doc, "started_at", "created_at");
    if "completed_at" in doc { Backfill.TruthMeaning(doc["completed_at"]); }
  }

  lemma DueResultMeaning(env: Env, doc: Fields, path: string)
    ensures ResultFindings(env, doc, path) == DueResult(env, doc, path)
  {
    IllegalMeaning(doc);
  }

  lemma DocFindingsAreDue(env: Env, doc: Fields, path: string)
    ensures DocFindings(env, doc, path) == DueFindings(env, doc, path)
  {
    DueKeysMeaning(env, doc, path);
    DueTimesMeaning(env, doc, path);
    DueResultMeaning(env, doc, path);
  }

  // ---- clock skew ------------------------------------------------------------------------------------------

  /** Completion precedes the start by `gap` seconds. */
  ghost predicate EndsBefore(env: Env, doc: Fields, gap: int)
  {
    && StampsReversed(env.digits, doc, "completed_at", "started_at")
    && Apart(env.digits, doc["completed_at"].s, doc["started_at"].s, gap)
  }

  /** Both texts are timestamps of the calendar, the second `gap` seconds after the first. */
  ghost predicate Apart(d: Digits, s: string, t: string, gap: int)
  {
    IsoZ(d, s) && IsoZ(d, t) && MomentsApart(Strptime(d, s), Strptime(d, t), gap)
  }

  ghost predicate MomentsApart(a: Option<Moment>, b: Option<Moment>, gap: int)
  {
    a.Some? && b.Some? && gap == Seconds(b.value) - Seconds(a.value)
  }

  /** Within six minutes of `n` hours, and at least one. At exactly six minutes the floating-point comparison decides.
      */
  ghost predicate AboutHours(env: Env, gap: int, n: int)
  {
    && n >= 1
    && (gap < 3600 * n + 360 || (gap == 3600 * n + 360 && env.boundary(gap)))
    && (gap > 3600 * n - 360 || (gap == 3600 * n - 360 && env.boundary(gap)))
  }

  ghost predicate TellsSkew(env: Env, e: Entry, f: Finding)
  {
    && f.code == H013 && f.severity == Blocker && f.path == e.path && f.later == []
    && exists gap, n :: EndsBefore(env, e.doc, gap) && AboutHours(env, gap, n) && f.message == env.skew(gap, n)
  }

  lemma DifferenceMeaning(a: Option<Moment>, b: Option<Moment>, gap: int)
    ensures MomentsApart(a, b, gap) <==> Difference(a, b) == Some(gap)
  {
  }

  lemma ApartMeaning(d: Digits, s: string, t: string, gap: int)
    requires IsoZ(d, s) && IsoZ(d, t)
    ensures Apart(d, s, t, gap) <==> Elapsed(d, s, t) == Some(gap)
  {
    DifferenceMeaning(Strptime(d, s), Strptime(d, t), gap);
  }

  lemma GapMeaning(env: Env, doc: Fields, gap: int)
    ensures EndsBefore(env, doc, gap) <==> Gap(env, doc) == Some(gap)
  {
    ReversedMeaning(env.digits, doc, "completed_at", "started_at");
    if Backwards(env.digits, Field(doc, "completed_at"), Field(doc, "started_at")) {
      ApartMeaning(env.digits, doc["completed_at"].s, doc["started_at"].s, gap);
    }
  }

  lemma HoursMeaning(env: Env, gap: int, n: int)
    ensures AboutHours(env, gap, n) <==> WholeHours(env, gap) && n == Nearest(gap)
  {
  }

  lemma SkewExactly(env: Env, e: Entry, f: Finding)
    ensures f in SkewFinding(env, e) <==> TellsSkew(env, e, f)
  {
    forall gap ensures EndsBefore(env, e.doc, gap) <==> Gap(env, e.doc) == Some(gap) { GapMeaning(env, e.doc, gap); }
    forall gap, n ensures AboutHours(env, gap, n) <==> WholeHours(env, gap) && n == Nearest(gap) {
      HoursMeaning(env, gap, n);
    }
  }

  /** One H013 for each handoff that calls for one, in order, and nothing else. */
  ghost predicate SkewReport(env: Env, es: seq<Entry>, fs: seq<Finding>)
  {
    if es == [] then fs == [] else
    var e := es[|es| - 1];
    exists before, last :: fs == before + last && SkewReport(env, es[..|es| - 1], before) &&
                           |last| <= 1 && (forall f | f in last :: TellsSkew(env, e, f)) &&
                           (last == [] ==> forall f :: !TellsSkew(env, e, f))
  }

  lemma {:induction false} SkewIsReported(env: Env, es: seq<Entry>)
    ensures SkewReport(env, es, SkewOf(env, es))
  {
    if es != [] {
      var e := es[|es| - 1];
      SkewIsReported(env, es[..|es| - 1]);
      forall f ensures f in SkewFinding(env, e) <==> TellsSkew(env, e, f) { SkewExactly(env, e, f); }
      assert SkewOf(env, es) == SkewOf(env, es[..|es| - 1]) + SkewFinding(env, e);
    }
  }
}
