/** The workflow catalogue tool: status derived from requirements, what may start, the UAT gate, and how all
    that meets the waves of the scheduler. */
module Wfctl {
  import opened Depsort
  import opened Graphs
  import opened Orders
  import opened Registry

  datatype Status = DRAFT | READY | IN_PROGRESS | IMPLEMENTED | UAT_PASSED | RELEASED

  /** An open dependency is one whose derived status is none of these. */
  predicate Satisfied(s: Status) { s == IMPLEMENTED || s == UAT_PASSED || s == RELEASED }

  predicate Finished(s: Status) { s == UAT_PASSED || s == RELEASED }

  predicate TestedOrReleased(status: string) { status == "TESTED" || status == "RELEASED" }

  predicate Started(status: string)
  {
    status == "IN_PROGRESS" || status == "IMPLEMENTED" || TestedOrReleased(status)
  }

  predicate IsReleased(status: string) { status == "RELEASED" }

  function Select(ids: seq<Id>, keep: Id -> bool): seq<Id>
  {
    if ids == [] then [] else (if keep(ids[0]) then [ids[0]] else []) + Select(ids[1..], keep)
  }

  lemma {:induction false} SelectMeaning(ids: seq<Id>, keep: Id -> bool)
    ensures forall i :: i in Select(ids, keep) <==> i in ids && keep(i)
    ensures |Select(ids, keep)| <= |ids|
    ensures |Select(ids, keep)| == |ids| <==> forall i | i in ids :: keep(i)
    ensures Select(ids, keep) == [] <==> forall i | i in ids :: !keep(i)
  {
    if ids != [] {
      SelectMeaning(ids[1..], keep);
      assert forall i :: i in ids <==> i == ids[0] || i in ids[1..];
    }
  }

  function Known(wf: Workflow, reqs: Requirements): seq<Id> { Select(wf.requirements, i => i in reqs) }

  function Missing(wf: Workflow, reqs: Requirements): seq<Id> { Select(wf.requirements, i => i !in reqs) }

  predicate IsMust(reqs: Requirements, i: Id) { i in reqs && reqs[i].priority == Some("MUST") }

  predicate HasStatus(reqs: Requirements, i: Id, test: string -> bool) { i in reqs && test(reqs[i].status) }

  /** The requirements that gate a workflow: its MUST entries, or all of them when it has none. */
  function Gating(wf: Workflow, reqs: Requirements): seq<Id>
  {
    var must := Select(Known(wf, reqs), i => IsMust(reqs, i));
    if must != [] then must else Known(wf, reqs)
  }

  /** `derive`. */
  function Derive(wf: Workflow, reqs: Requirements): Status
  {
    var known := Known(wf, reqs);
    var gating := Gating(wf, reqs);
    var gatingDone := Select(gating, i => HasStatus(reqs, i, TestedOrReleased));
    var started := Select(known, i => HasStatus(reqs, i, Started));
    var released := Select(known, i => HasStatus(reqs, i, IsReleased));
    if Missing(wf, reqs) != [] then DRAFT
    else if gating != [] && |gatingDone| == |gating| then
      if released != [] && |released| == |known| then RELEASED
      else if wf.uatStatus == "PASS" then UAT_PASSED
      else IMPLEMENTED
    else if started != [] then IN_PROGRESS
    else if wf.status == "DRAFT" then DRAFT
    else READY
  }

  /** `i` gates `wf`: it is MUST, or nothing that the workflow lists is. */
  ghost predicate Gates(wf: Workflow, reqs: Requirements, i: Id)
  {
    i in wf.requirements && i in reqs &&
    (reqs[i].priority == Some("MUST") ||
     forall m | m in wf.requirements && m in reqs :: reqs[m].priority != Some("MUST"))
  }

  lemma GatingMeaning(wf: Workflow, reqs: Requirements)
    ensures forall i :: i in Gating(wf, reqs) <==> Gates(wf, reqs, i)
    ensures forall i :: i in Known(wf, reqs) <==> i in wf.requirements && i in reqs
    ensures Missing(wf, reqs) == [] <==> forall i | i in wf.requirements :: i in reqs
    ensures Gating(wf, reqs) == [] <==> forall i | i in wf.requirements :: i !in reqs
  {
    SelectMeaning(wf.requirements, i => i in reqs);
    SelectMeaning(wf.requirements, i => i !in reqs);
    MustMeaning(wf, reqs);
  }

  lemma MustMeaning(wf: Workflow, reqs: Requirements)
    ensures var must := Select(Known(wf, reqs), i => IsMust(reqs, i));
            && (forall i :: i in must <==> i in wf.requirements && i in reqs && reqs[i].priority == Some("MUST"))
            && (must == [] <==> forall m | m in wf.requirements && m in reqs :: reqs[m].priority != Some("MUST"))
  {
    SelectMeaning(wf.requirements, i => i in reqs);
    SelectMeaning(Known(wf, reqs), i => IsMust(reqs, i));
  }

  /** All that the workflow lists is registered. */
  ghost predicate Registered(wf: Workflow, reqs: Requirements)
  {
    forall i | i in wf.requirements :: i in reqs
  }

  /** The workflow lists requirements, all registered, and those that gate it are TESTED or RELEASED. */
  ghost predicate IsDelivered(wf: Workflow, reqs: Requirements)
  {
    wf.requirements != [] && Registered(wf, reqs) &&
    forall i | Gates(wf, reqs, i) :: reqs[i].status == "TESTED" || reqs[i].status == "RELEASED"
  }

  /** All that it lists is RELEASED. */
  ghost predicate AllReleased(wf: Workflow, reqs: Requirements)
  {
    forall i | i in wf.requirements :: i in reqs && reqs[i].status == "RELEASED"
  }

  /** Something that it lists has been started. */
  ghost predicate SomeStarted(wf: Workflow, reqs: Requirements)
  {
    exists i :: i in wf.requirements && i in reqs &&
                reqs[i].status in ["IN_PROGRESS", "IMPLEMENTED", "TESTED", "RELEASED"]
  }

  /** What each derived status means. */
  lemma DeriveMeaning(wf: Workflow, reqs: Requirements)
    ensures Derive(wf, reqs) == RELEASED <==> IsDelivered(wf, reqs) && AllReleased(wf, reqs)
    ensures Derive(wf, reqs) == UAT_PASSED <==>
            IsDelivered(wf, reqs) && !AllReleased(wf, reqs) && wf.uatStatus == "PASS"
    ensures Derive(wf, reqs) == IMPLEMENTED <==>
            IsDelivered(wf, reqs) && !AllReleased(wf, reqs) && wf.uatStatus != "PASS"
    ensures Derive(wf, reqs) == IN_PROGRESS <==>
            Registered(wf, reqs) && !IsDelivered(wf, reqs) && SomeStarted(wf, reqs)
    ensures Derive(wf, reqs) == READY <==>
            Registered(wf, reqs) && !IsDelivered(wf, reqs) && !SomeStarted(wf, reqs) && wf.status != "DRAFT"
    ensures Derive(wf, reqs) == DRAFT <==>
            !Registered(wf, reqs) ||
            (!IsDelivered(wf, reqs) && !SomeStarted(wf, reqs) && wf.status == "DRAFT")
    ensures Satisfied(Derive(wf, reqs)) <==> IsDelivered(wf, reqs)
    ensures Finished(Derive(wf, reqs)) <==>
            IsDelivered(wf, reqs) && (AllReleased(wf, reqs) || wf.uatStatus == "PASS")
  {
    DeliveredMeaning(wf, reqs);
    ReleasedMeaning(wf, reqs);
    StartedMeaning(wf, reqs);
    GatingMeaning(wf, reqs);
  }

  lemma StartedMeaning(wf: Workflow, reqs: Requirements)
    ensures Select(Known(wf, reqs), i => HasStatus(reqs, i, Started)) != [] <==> SomeStarted(wf, reqs)
  {
    var started := Select(Known(wf, reqs), i => HasStatus(reqs, i, Started));
    SelectMeaning(wf.requirements, i => i in reqs);
    SelectMeaning(Known(wf, reqs), i => HasStatus(reqs, i, Started));
    if started != [] {
      var i := started[0];
      assert i in started;
      StartedStatus(reqs[i].status);
    }
    if i :| i in wf.requirements && i in reqs &&
            reqs[i].status in ["IN_PROGRESS", "IMPLEMENTED", "TESTED", "RELEASED"] {
      StartedStatus(reqs[i].status);
      assert i in Known(wf, reqs);
    }
  }

  lemma StartedStatus(status: string)
    ensures Started(status) <==> status in ["IN_PROGRESS", "IMPLEMENTED", "TESTED", "RELEASED"]
  {
  }

  lemma DeliveredMeaning(wf: Workflow, reqs: Requirements)
    ensures Satisfied(Derive(wf, reqs)) <==>
            && wf.requirements != []
            && (forall i | i in wf.requirements :: i in reqs)
            && forall i | Gates(wf, reqs, i) :: TestedOrReleased(reqs[i].status)
  {
    GatingMeaning(wf, reqs);
    SelectMeaning(Gating(wf, reqs), i => HasStatus(reqs, i, TestedOrReleased));
    assert wf.requirements != [] ==> wf.requirements[0] in wf.requirements;
  }

  lemma ReleasedMeaning(wf: Workflow, reqs: Requirements)
    ensures Derive(wf, reqs) == RELEASED <==>
            wf.requirements != [] && forall i | i in wf.requirements :: i in reqs && reqs[i].status == "RELEASED"
  {
    DeliveredMeaning(wf, reqs);
    GatingMeaning(wf, reqs);
    AllReleasedMeaning(wf, reqs);
  }

  lemma AllReleasedMeaning(wf: Workflow, reqs: Requirements)
    ensures var known := Known(wf, reqs);
            var released := Select(known, i => HasStatus(reqs, i, IsReleased));
            (released != [] && |released| == |known|) <==>
            known != [] && forall i | i in wf.requirements && i in reqs :: reqs[i].status == "RELEASED"
  {
    SelectMeaning(wf.requirements, i => i in reqs);
    SelectMeaning(Known(wf, reqs), i => HasStatus(reqs, i, IsReleased));
  }

  // ---- next --------------------------------------------------------------------------------------

  /** All dependencies delivered. */
  ghost predicate Unblocked(cat: Catalogue, reqs: Requirements, w: Id)
  {
    w in cat.byId &&
    forall d | d in cat.byId[w].dependsOn :: d in cat.byId && IsDelivered(cat.byId[d], reqs)
  }

  /** The derived status of every workflow. */
  function Statuses(cat: Catalogue, reqs: Requirements): (st: map<Id, Status>)
    ensures st.Keys == cat.byId.Keys
  {
    map w | w in cat.byId :: Derive(cat.byId[w], reqs)
  }

  predicate Delivered(st: map<Id, Status>, d: Id) { d in st && Satisfied(st[d]) }

  /** `w` is unfinished and all it depends on is delivered. */
  predicate Startable(byId: map<Id, Workflow>, st: map<Id, Status>, w: Id)
  {
    w in byId && w in st && !Finished(st[w]) && forall d | d in byId[w].dependsOn :: Delivered(st, d)
  }

  /** `w` is unfinished and depends on a workflow that does not exist. */
  predicate Dangling(byId: map<Id, Workflow>, st: map<Id, Status>, w: Id)
  {
    w in byId && w in st && !Finished(st[w]) && exists d :: d in byId[w].dependsOn && d !in st
  }

  /** The dependencies that are not delivered; None if one is not in the catalogue. */
  method BlockedBy(st: map<Id, Status>, deps: seq<Id>) returns (blocked: Option<seq<Id>>)
    ensures blocked.None? <==> exists d :: d in deps && d !in st
    ensures blocked.Some? ==> forall d :: d in blocked.value <==> d in deps && !Delivered(st, d)
  {
    var acc: seq<Id> := [];
    for j := 0 to |deps|
      invariant forall d | d in deps[..j] :: d in st
      invariant forall d :: d in acc <==> d in deps[..j] && !Delivered(st, d)
    {
      assert deps[..j + 1] == deps[..j] + [deps[j]];
      if deps[j] !in st { return None; }
      if !Satisfied(st[deps[j]]) { acc := acc + [deps[j]]; }
    }
    assert deps[..|deps|] == deps;
    return Some(acc);
  }

  /** In order of name, each once. */
  ghost predicate ByName(q: seq<Id>)
  {
    forall i, j | 0 <= i < j < |q| :: q[i].name != q[j].name && StrLeq(q[i].name, q[j].name)
  }

  /** What the first `n` of `ids` contribute stays in order. */
  lemma ByNameStep(ids: seq<Id>, n: nat, acc: seq<Id>)
    requires n < |ids| && ByName(ids) && ByName(acc) && forall w | w in acc :: w in ids[..n]
    ensures ByName(acc + [ids[n]])
  {
    forall k | 0 <= k < |acc| ensures acc[k].name != ids[n].name && StrLeq(acc[k].name, ids[n].name) {
      assert acc[k] in ids[..n];
    }
  }

  method StartableIds(byId: map<Id, Workflow>, st: map<Id, Status>, ids: seq<Id>) returns (out: Option<seq<Id>>)
    requires st.Keys == byId.Keys && (forall w | w in ids :: w in byId) && ByName(ids)
    ensures out.Some? ==> ByName(out.value)
    ensures out.None? <==> exists w :: w in ids && Dangling(byId, st, w)
    ensures out.Some? ==> forall w :: w in out.value <==> w in ids && Startable(byId, st, w)
  {
    var acc: seq<Id> := [];
    for i := 0 to |ids|
      invariant forall w :: w in acc <==> w in ids[..i] && Startable(byId, st, w)
      invariant ByName(acc)
      invariant forall w | w in ids[..i] :: !Dangling(byId, st, w)
    {
      var w := ids[i];
      assert w in ids && ids[..i + 1] == ids[..i] + [w];
      if Finished(st[w]) { continue; }
      var blocked := BlockedBy(st, byId[w].dependsOn);
      if blocked.None? { return None; }
      NothingBlocks(byId, st, w, blocked.value);
      ByNameStep(ids, i, acc);
      if blocked.value == [] { acc := acc + [w]; }
    }
    assert ids[..|ids|] == ids;
    return Some(acc);
  }

  lemma NothingBlocks(byId: map<Id, Workflow>, st: map<Id, Status>, w: Id, blocked: seq<Id>)
    requires w in byId && w in st && !Finished(st[w])
    requires forall d :: d in blocked <==> d in byId[w].dependsOn && !Delivered(st, d)
    ensures blocked == [] <==> Startable(byId, st, w)
  {
    if blocked != [] { assert blocked[0] in blocked; }
  }

  /** `next`: the workflows not finished whose dependencies are delivered. None stands for the KeyError that an
      unknown dependency of an unfinished workflow raises. */
  method Next(cat: Catalogue, reqs: Requirements) returns (out: Option<seq<Id>>)
    ensures out.None? <==> exists w, d :: Unfinished(cat, reqs, w) && d in cat.byId[w].dependsOn && d !in cat.byId
    ensures out.Some? ==> forall w :: w in out.value <==> Unfinished(cat, reqs, w) && Unblocked(cat, reqs, w)
    ensures out.Some? ==> ByName(out.value)
  {
    var ids := Sort(Alphabetic(cat.byId.Keys), cat.byId.Keys);
    assert forall i, j | 0 <= i < j < |ids| :: Precedes(Alphabetic(cat.byId.Keys), ids[i], ids[j]);
    var st := Statuses(cat, reqs);
    out := StartableIds(cat.byId, st, ids);
    forall w
      ensures Startable(cat.byId, st, w) <==> Unfinished(cat, reqs, w) && Unblocked(cat, reqs, w)
      ensures Dangling(cat.byId, st, w) <==>
              exists d :: Unfinished(cat, reqs, w) && d in cat.byId[w].dependsOn && d !in cat.byId
    {
      StartableMeaning(cat, reqs, w);
    }
  }

  /** A workflow of the catalogue that is not delivered, or delivered but neither RELEASED throughout nor accepted. */
  ghost predicate Unfinished(cat: Catalogue, reqs: Requirements, w: Id)
  {
    w in cat.byId &&
    !(IsDelivered(cat.byId[w], reqs) && (AllReleased(cat.byId[w], reqs) || cat.byId[w].uatStatus == "PASS"))
  }

  lemma StartableMeaning(cat: Catalogue, reqs: Requirements, w: Id)
    ensures Startable(cat.byId, Statuses(cat, reqs), w) <==> Unfinished(cat, reqs, w) && Unblocked(cat, reqs, w)
    ensures Dangling(cat.byId, Statuses(cat, reqs), w) <==>
            exists d :: Unfinished(cat, reqs, w) && d in cat.byId[w].dependsOn && d !in cat.byId
  {
    var st := Statuses(cat, reqs);
    if w in cat.byId {
      DeriveMeaning(cat.byId[w], reqs);
      forall d | d in cat.byId[w].dependsOn
        ensures Delivered(st, d) <==> d in cat.byId && IsDelivered(cat.byId[d], reqs)
      {
        if d in cat.byId { DeriveMeaning(cat.byId[d], reqs); }
      }
    }
  }

  // ---- the UAT gate --------------------------------------------------------------------------------

  /** `uat-ready`: whether the list of blockers stays empty. A dependency missing from the catalogue is ignored;
      None is the error exit for a workflow missing from it. */
  method UatReady(cat: Catalogue, reqs: Requirements, scenarioFiles: set<string>, id: Id) returns (ready: Option<bool>)
    ensures ready.Some? <==> id in cat.byId
    ensures ready.Some? ==> (ready.value <==>
            var wf := cat.byId[id];
            && Registered(wf, reqs)
            && (forall i | Gates(wf, reqs, i) :: reqs[i].status == "TESTED" || reqs[i].status == "RELEASED")
            && (forall s | s in wf.scenarios :: s in scenarioFiles)
            && (forall d | d in wf.dependsOn && d in cat.byId :: IsDelivered(cat.byId[d], reqs)))
  {
    if id !in cat.byId { return None; }
    var wf := cat.byId[id];
    GatingMeaning(wf, reqs);
    var blockers := if Missing(wf, reqs) != [] then 1 else 0;
    var musts := Select(wf.requirements, i => IsMust(reqs, i));
    SelectMeaning(wf.requirements, i => IsMust(reqs, i));
    var hasMust := musts != [];
    assert hasMust <==> exists m :: m in wf.requirements && IsMust(reqs, m) by {
      if hasMust { assert musts[0] in musts; }
    }
    var open := CountOpen(wf.requirements, reqs, hasMust);
    blockers := blockers + open;
    var absent := CountAbsent(wf.scenarios, scenarioFiles);
    blockers := blockers + absent;
    var undelivered := CountUndelivered(cat, reqs, wf.dependsOn);
    forall d | d in wf.dependsOn && d in cat.byId { DeriveMeaning(cat.byId[d], reqs); }
    blockers := blockers + undelivered;
    return Some(blockers == 0);
  }

  method CountOpen(ids: seq<Id>, reqs: Requirements, hasMust: bool) returns (n: nat)
    ensures n == 0 <==> forall i | i in ids && i in reqs && (hasMust ==> IsMust(reqs, i)) ::
            TestedOrReleased(reqs[i].status)
  {
    n := 0;
    for j := 0 to |ids|
      invariant n == 0 <==> forall k | 0 <= k < j && ids[k] in reqs && (hasMust ==> IsMust(reqs, ids[k])) ::
                  TestedOrReleased(reqs[ids[k]].status)
    {
      var rid := ids[j];
      if rid !in reqs { continue; }
      var gates := if hasMust then IsMust(reqs, rid) else true;
      if gates && !TestedOrReleased(reqs[rid].status) { n := n + 1; }
    }
  }

  method CountAbsent(scenarios: seq<string>, files: set<string>) returns (n: nat)
    ensures n == 0 <==> forall s | s in scenarios :: s in files
  {
    n := 0;
    for j := 0 to |scenarios|
      invariant n == 0 <==> forall k | 0 <= k < j :: scenarios[k] in files
    {
      if scenarios[j] !in files { n := n + 1; }
    }
  }

  method CountUndelivered(cat: Catalogue, reqs: Requirements, deps: seq<Id>) returns (n: nat)
    ensures n == 0 <==> forall d | d in deps && d in cat.byId :: Satisfied(Derive(cat.byId[d], reqs))
  {
    n := 0;
    for j := 0 to |deps|
      invariant n == 0 <==> forall k | 0 <= k < j && deps[k] in cat.byId :: Satisfied(Derive(cat.byId[deps[k]], reqs))
    {
      if deps[j] in cat.byId && !Satisfied(Derive(cat.byId[deps[j]], reqs)) { n := n + 1; }
    }
  }

  /** The gate's requirement checks agree with the derived status, except that they also let a workflow without any
      requirement through, which is never derived as delivered. */
  lemma GateVersusDerive(wf: Workflow, reqs: Requirements)
    ensures ((forall i | i in wf.requirements :: i in reqs) &&
             forall i | Gates(wf, reqs, i) :: reqs[i].status == "TESTED" || reqs[i].status == "RELEASED")
            <==> Satisfied(Derive(wf, reqs)) || wf.requirements == []
  {
    DeriveMeaning(wf, reqs);
  }

  // ---- waves drive workflows -------------------------------------------------------------------------

  /** `after` is the register `before` with everything in the waves before `n` released; what was built already stays as
      it was. Statuses of other entries may change in any way. */
  ghost predicate ReleasedUpTo(before: Requirements, after: Requirements, cat: Catalogue, n: nat)
    requires n >= 1
  {
    && before.Keys == after.Keys
    && (forall k | k in before :: after[k] == before[k].(status := after[k].status))
    && (forall k | k in Placed(OpenGraph(before, cat), n - 1) && k in after :: after[k].status == "RELEASED")
    && (forall k | k in Load(before) && Done(before[k].status) :: after[k].status == before[k].status)
  }

  /** Every requirement the workflow lists is claimed by it and by no later workflow. */
  ghost predicate OwnsItsRequirements(cat: Catalogue, d: Id)
    requires d in cat.byId
  {
    forall r | r in cat.byId[d].requirements :: Owner(cat.order, cat.byId, r) == Some(d)
  }

  /** `w` owns the wave-n requirement `k`. */
  ghost predicate OwnsInWave(before: Requirements, cat: Catalogue, k: Id, n: nat, w: Id)
  {
    InWave(OpenGraph(before, cat), k, n) && Owner(cat.order, cat.byId, k) == Some(w) && w in cat.byId
  }

  /** Requirements of a dependency of the owner of a wave-n requirement were either built before or sit in earlier
      waves. */
  lemma DependencyIsBuilt(before: Requirements, after: Requirements, cat: Catalogue, k: Id, n: nat, w: Id, d: Id, r: Id)
    requires OwnsInWave(before, cat, k, n, w) && d in cat.byId[w].dependsOn && d != w
    requires d in cat.byId && OwnsItsRequirements(cat, d) && r in cat.byId[d].requirements && r in Load(before)
    requires ReleasedUpTo(before, after, cat, n)
    ensures after[r].status == "RELEASED" || (after[r].status == before[r].status == "DEPRECATED")
  {
    var reqs := Load(before);
    if !Done(before[r].status) {
      assert r in WorkflowEdges(cat, Scheduled(reqs, false), k) && r != k;
      assert r in OpenGraph(before, cat)[k];
    }
  }

  /** What it takes for the dependency `d` to be delivered once the earlier waves are released: it has requirements,
      all registered, and each gating one is of type requirement and not DEPRECATED, or, if of another type, TESTED or
      RELEASED. */
  ghost predicate Deliverable(before: Requirements, after: Requirements, cat: Catalogue, d: Id)
    requires before.Keys == after.Keys
  {
    && d in cat.byId
    && cat.byId[d].requirements != []
    && (forall r | r in cat.byId[d].requirements :: r in before)
    && forall r | Gates(cat.byId[d], before, r) ::
         if before[r].kind == RequirementEntry then before[r].status != "DEPRECATED"
           else TestedOrReleased(after[r].status)
  }

  /** Once all waves before `n` are released, a direct dependency of the owner of a wave-n requirement is delivered if
      and only if it is deliverable. The scheduler takes DEPRECATED for built and does not see entries of other types;
      the workflow tool does neither. */
  lemma DependencyDeliveredIff(before: Requirements, after: Requirements, cat: Catalogue, k: Id, n: nat, w: Id, d: Id)
    requires OwnsInWave(before, cat, k, n, w) && d in cat.byId[w].dependsOn && d != w
    requires d in cat.byId && OwnsItsRequirements(cat, d)
    requires ReleasedUpTo(before, after, cat, n)
    ensures IsDelivered(cat.byId[d], after) <==> Deliverable(before, after, cat, d)
    ensures Satisfied(Derive(cat.byId[d], after)) <==> Deliverable(before, after, cat, d)
  {
    var wf := cat.byId[d];
    DeriveMeaning(wf, after);
    forall r | r in wf.requirements && r in Load(before)
      ensures TestedOrReleased(after[r].status) <==> before[r].status != "DEPRECATED"
    {
      DependencyIsBuilt(before, after, cat, k, n, w, d, r);
    }
    SameGates(wf, before, after);
  }

  lemma SameGates(wf: Workflow, before: Requirements, after: Requirements)
    requires before.Keys == after.Keys && forall k | k in before :: after[k] == before[k].(status := after[k].status)
    ensures forall r :: Gates(wf, before, r) <==> Gates(wf, after, r)
  {
    assert forall m :: IsMust(before, m) <==> IsMust(after, m);
  }

  /** Once all waves before `n` are released, nothing blocks the owner of a wave-n requirement if and only if all it
      depends on is deliverable. */
  lemma WavesUnblockIff(before: Requirements, after: Requirements, cat: Catalogue, k: Id, n: nat, w: Id)
    requires OwnsInWave(before, cat, k, n, w) && ReleasedUpTo(before, after, cat, n)
    requires forall d | d in cat.byId[w].dependsOn && d in cat.byId :: d != w && OwnsItsRequirements(cat, d)
    ensures Unblocked(cat, after, w) <==> forall d | d in cat.byId[w].dependsOn :: Deliverable(before, after, cat, d)
  {
    forall d | d in cat.byId[w].dependsOn && d in cat.byId
      ensures IsDelivered(cat.byId[d], after) <==> Deliverable(before, after, cat, d)
    {
      DependencyDeliveredIff(before, after, cat, k, n, w, d);
    }
  }

  /** What `validate` reports as blockers about claims and dependencies. */
  ghost predicate ValidCatalogue(register: Requirements, cat: Catalogue)
  {
    cat.Valid() &&
    forall w | w in cat.byId ::
      && OwnsItsRequirements(cat, w)
      && cat.byId[w].requirements != []
      && (forall r | r in cat.byId[w].requirements :: r in register)
      && (forall d | d in cat.byId[w].dependsOn :: d in cat.byId && d != w)
  }

  /** Every claimed entry is of type requirement and not DEPRECATED, which `validate` does not ask for. */
  ghost predicate ClaimsOnlyLiveRequirements(register: Requirements, cat: Catalogue)
  {
    forall w, r | w in cat.byId && r in cat.byId[w].requirements && r in register ::
      register[r].kind == RequirementEntry && register[r].status != "DEPRECATED"
  }

  /** The two tools meet: in a valid catalogue that claims only live requirements, once all waves before `n` are
      released, every dependency of a workflow that owns a wave-n requirement is derived RELEASED, so nothing blocks
      that workflow. */
  lemma WavesDriveWorkflows(before: Requirements, after: Requirements, cat: Catalogue, k: Id, n: nat, w: Id)
    requires ValidCatalogue(before, cat) && ClaimsOnlyLiveRequirements(before, cat)
    requires OwnsInWave(before, cat, k, n, w) && ReleasedUpTo(before, after, cat, n)
    ensures Unblocked(cat, after, w)
    ensures forall d | d in cat.byId[w].dependsOn :: d in cat.byId && Derive(cat.byId[d], after) == RELEASED
  {
    forall d | d in cat.byId[w].dependsOn
      ensures d in cat.byId && IsDelivered(cat.byId[d], after) && Derive(cat.byId[d], after) == RELEASED
    {
      DependencyIsReleased(before, after, cat, k, n, w, d);
    }
  }

  lemma DependencyIsReleased(before: Requirements, after: Requirements, cat: Catalogue, k: Id, n: nat, w: Id, d: Id)
    requires ValidCatalogue(before, cat) && ClaimsOnlyLiveRequirements(before, cat)
    requires OwnsInWave(before, cat, k, n, w) && ReleasedUpTo(before, after, cat, n) && d in cat.byId[w].dependsOn
    ensures d in cat.byId && IsDelivered(cat.byId[d], after) && Derive(cat.byId[d], after) == RELEASED
  {
    var wf := cat.byId[d];
    forall r | r in wf.requirements ensures r in after && after[r].status == "RELEASED" {
      DependencyIsBuilt(before, after, cat, k, n, w, d, r);
    }
    DeriveMeaning(wf, after);
  }

  // ---- where the tools part ----------------------------------------------------------------------------

  const RULE := Id("IR-01")
  const FEATURE := Id("A-1")
  const BASE := Id("PW-01")
  const NEXT := Id("PW-02")

  function Listing(rid: Id, dependsOn: seq<Id>): Workflow { Workflow([rid], dependsOn, "READY", "", []) }

  /** PW-01 lists IR-01; PW-02 lists A-1 and depends on PW-01. */
  const TWO_WORKFLOWS: Catalogue :=
    Catalogue([BASE, NEXT], map[BASE := Listing(RULE, []), NEXT := Listing(FEATURE, [BASE])])

  function EntryOf(kind: EntryType, status: string): Requirement
  {
    Requirement(kind, status, None, Stage("1", Integer(1)), "", {}, None, {})
  }

  function TwoEntries(rule: Requirement): Requirements
  {
    map[RULE := rule, FEATURE := EntryOf(RequirementEntry, "DRAFT")]
  }

  lemma DistinctNames()
    ensures RULE != FEATURE && BASE != NEXT
  {
    assert RULE.name[0] != FEATURE.name[0] && BASE.name[4] != NEXT.name[4];
  }

  lemma TwoWorkflowsAreValid(rule: Requirement)
    ensures ValidCatalogue(TwoEntries(rule), TWO_WORKFLOWS)
    ensures Owner(TWO_WORKFLOWS.order, TWO_WORKFLOWS.byId, FEATURE) == Some(NEXT)
    ensures OwnsItsRequirements(TWO_WORKFLOWS, BASE)
  {
    DistinctNames();
    var cat := TWO_WORKFLOWS;
    assert cat.order[..1] == [BASE] && cat.order[..1][..0] == [];
    assert cat.byId[BASE].requirements == [RULE] && cat.byId[NEXT].requirements == [FEATURE];
    assert FEATURE !in [RULE] && RULE !in [FEATURE];
    assert Owner([BASE], cat.byId, RULE) == Some(BASE);
    assert Owner(cat.order, cat.byId, FEATURE) == Some(NEXT) && Owner(cat.order, cat.byId, RULE) == Some(BASE);
  }

  /** If the scheduler does not schedule IR-01, A-1 is in the first wave, whatever the workflow tool thinks of PW-01. */
  lemma FeatureComesFirst(rule: Requirement)
    requires rule.kind != RequirementEntry || Done(rule.status)
    ensures OwnsInWave(TwoEntries(rule), TWO_WORKFLOWS, FEATURE, 1, NEXT)
    ensures ReleasedUpTo(TwoEntries(rule), TwoEntries(rule), TWO_WORKFLOWS, 1)
  {
    DistinctNames();
    TwoWorkflowsAreValid(rule);
    var register := TwoEntries(rule);
    var reqs := Load(register);
    var g := OpenGraph(register, TWO_WORKFLOWS);
    assert !Done(register[FEATURE].status);
    assert Scheduled(reqs, false) == {FEATURE};
    assert g.Keys == {FEATURE} && g[FEATURE] == {};
    assert Placed(g, 0) == {};
  }

  /** The catalogue is valid and A-1 in the first wave, but PW-01 is not delivered and so PW-02 is blocked. */
  ghost predicate ArrivesBlocked(register: Requirements)
  {
    && ValidCatalogue(register, TWO_WORKFLOWS)
    && OwnsInWave(register, TWO_WORKFLOWS, FEATURE, 1, NEXT)
    && ReleasedUpTo(register, register, TWO_WORKFLOWS, 1)
    && !Satisfied(Derive(TWO_WORKFLOWS.byId[BASE], register))
    && !Unblocked(TWO_WORKFLOWS, register, NEXT)
  }

  /** A valid catalogue in which the wave of a requirement arrives while its workflow is blocked: PW-01 lists an entry
      that is not TESTED or RELEASED, and that the scheduler takes for built or does not see. */
  lemma WaveArrivesBlocked(rule: Requirement)
    requires !TestedOrReleased(rule.status) && (rule.kind != RequirementEntry || rule.status == "DEPRECATED")
    ensures ArrivesBlocked(TwoEntries(rule))
  {
    DistinctNames();
    TwoWorkflowsAreValid(rule);
    FeatureComesFirst(rule);
    var register, wf := TwoEntries(rule), TWO_WORKFLOWS.byId[BASE];
    DeriveMeaning(wf, register);
    assert RULE in wf.requirements && forall i | i in wf.requirements :: i == RULE;
    assert Gates(wf, register, RULE);
    assert BASE in TWO_WORKFLOWS.byId[NEXT].dependsOn;
  }

  /** An interpretation rule under a workflow, and a deprecated requirement under one, block the workflow that depends
      on it. */
  lemma RuleOrDeprecatedBlocks()
    ensures ArrivesBlocked(TwoEntries(EntryOf(OtherEntry("interpretation-rule"), "INFORMATIONAL")))
    ensures ArrivesBlocked(TwoEntries(EntryOf(RequirementEntry, "DEPRECATED")))
  {
    WaveArrivesBlocked(EntryOf(OtherEntry("interpretation-rule"), "INFORMATIONAL"));
    WaveArrivesBlocked(EntryOf(RequirementEntry, "DEPRECATED"));
  }
}
