/** The test wiring linter: which test binaries no aggregate build step runs. */
module Wiring {
  import opened Graphs
  import opened Orders
  import opened Registry

  /** What the line scan of build.zig and of the imports yields: the root file of every addTest binding (None when the
      call names none), the public name of every step, the dependOn edges and the Run artifacts in file order, the
      files that exist, and the imports of each. */
  datatype Build = Build(
    tests: map<Id, Option<Id>>,
    steps: map<Id, string>,
    dependsOn: seq<(Id, Id)>,
    runs: seq<(Id, Id)>,
    files: set<Id>,
    imports: map<Id, seq<Id>>)

  predicate Aggregate(name: string) { name == "test" || name == "test-integration" }

  /** Reached from one of `roots` by any number of edges. */
  ghost predicate ReachedFrom(g: Graph, roots: set<Id>, v: Id) { exists r :: r in roots && Reaches(g, r, v) }

  // ---- the two worklists -----------------------------------------------------------------------------

  /** Everything reached or waiting is reachable; what is reached has its successors reached or waiting. */
  ghost predicate Walking(g: Graph, roots: set<Id>, reached: set<Id>, frontier: seq<Id>)
  {
    && (forall v | v in reached || v in frontier :: ReachedFrom(g, roots, v))
    && (forall r | r in roots :: r in reached || r in frontier)
    && (forall u | u in reached :: forall v | v in Succ(g, u) :: v in reached || v in frontier)
  }

  lemma WalkStart(g: Graph, roots: set<Id>, frontier: seq<Id>)
    requires forall v :: v in frontier <==> v in roots
    ensures Walking(g, roots, {}, frontier)
  {
    forall v | v in frontier ensures ReachedFrom(g, roots, v) { ReachesSelf(g, v); }
  }

  /** `next` is the frontier without its last id, plus at least the unreached and at most all successors of that id. */
  ghost predicate Advances(g: Graph, reached: set<Id>, frontier: seq<Id>, next: seq<Id>)
    requires frontier != []
  {
    var u, rest := frontier[|frontier| - 1], frontier[..|frontier| - 1];
    && (forall v | v in next :: v in rest || v in Succ(g, u))
    && (forall v | v in rest :: v in next)
    && (forall v | v in Succ(g, u) && v !in reached + {u} :: v in next)
  }

  lemma WalkStep(g: Graph, roots: set<Id>, reached: set<Id>, frontier: seq<Id>, next: seq<Id>)
    requires Walking(g, roots, reached, frontier) && frontier != [] && Advances(g, reached, frontier, next)
    requires frontier[|frontier| - 1] !in reached
    ensures Walking(g, roots, reached + {frontier[|frontier| - 1]}, next)
    ensures Unreached(g, roots, reached + {frontier[|frontier| - 1]}) < Unreached(g, roots, reached)
  {
    var u, rest := frontier[|frontier| - 1], frontier[..|frontier| - 1];
    assert frontier == rest + [u];
    assert u in frontier && forall v | v in rest :: v in frontier;
    forall v | v in next ensures ReachedFrom(g, roots, v) {
      if v !in rest {
        var r :| r in roots && Reaches(g, r, u);
        ReachesStep(g, r, u, v);
      }
    }
    InUniverse(g, roots, u);
    assert u in Unreached(g, roots, reached);
  }

  lemma WalkSkip(g: Graph, roots: set<Id>, reached: set<Id>, frontier: seq<Id>)
    requires Walking(g, roots, reached, frontier) && frontier != [] && frontier[|frontier| - 1] in reached
    ensures Walking(g, roots, reached, frontier[..|frontier| - 1])
  {
    var u, rest := frontier[|frontier| - 1], frontier[..|frontier| - 1];
    assert frontier == rest + [u];
    assert forall v :: v in frontier <==> v in rest || v == u;
  }

  lemma WalkEnd(g: Graph, roots: set<Id>, reached: set<Id>)
    requires Walking(g, roots, reached, [])
    ensures forall v :: v in reached <==> ReachedFrom(g, roots, v)
  {
    forall v | ReachedFrom(g, roots, v) ensures v in reached {
      var r :| r in roots && Reaches(g, r, v);
      ClosedSetAbsorbsReach(g, reached, r, v);
    }
  }

  /** Ids that can still be reached for the first time. */
  ghost function Unreached(g: Graph, roots: set<Id>, reached: set<Id>): set<Id>
  {
    Completed(g).Keys + roots - reached
  }

  lemma InUniverse(g: Graph, roots: set<Id>, v: Id)
    requires ReachedFrom(g, roots, v)
    ensures v in Completed(g).Keys + roots
  {
    var r :| r in roots && Reaches(g, r, v);
    CompletedIsClosed(g, roots);
    ClosedSetAbsorbsReach(g, Completed(g).Keys + roots, r, v);
  }

  lemma CompletedIsClosed(g: Graph, roots: set<Id>)
    ensures forall x | x in Completed(g).Keys + roots :: Succ(g, x) <= Completed(g).Keys + roots
  {
    forall x | x in Completed(g).Keys + roots ensures Succ(g, x) <= Completed(g).Keys + roots {
      assert Succ(Completed(g), x) == Succ(g, x);
    }
  }

  /** An import list as a graph edge. */
  function ImportGraph(imports: map<Id, seq<Id>>, files: set<Id>): Graph
  {
    map f | f in imports :: set t | t in imports[f] && t in files
  }

  /** `resolve_imports`: the imported files that exist. */
  function ResolveImports(imports: map<Id, seq<Id>>, files: set<Id>, f: Id): seq<Id>
  {
    if f !in imports then [] else Existing(imports[f], files)
  }

  function Existing(ts: seq<Id>, files: set<Id>): (r: seq<Id>)
    ensures forall t :: t in r <==> t in ts && t in files
  {
    if ts == [] then [] else (if ts[0] in files then [ts[0]] else []) + Existing(ts[1..], files)
  }

  /** `reachable_from_roots`: only targets not yet reached are put on the frontier. */
  method ReachableFromRoots(imports: map<Id, seq<Id>>, files: set<Id>, roots: set<Id>) returns (reachable: set<Id>)
    ensures forall v :: v in reachable <==> ReachedFrom(ImportGraph(imports, files), roots, v)
  {
    ghost var g := ImportGraph(imports, files);
    reachable := {};
    var frontier := Sort(Alphabetic(roots), roots);
    WalkStart(g, roots, frontier);
    while frontier != []
      invariant Walking(g, roots, reachable, frontier)
      decreases Unreached(g, roots, reachable), |frontier|
    {
      var current := frontier[|frontier| - 1];
      var rest := frontier[..|frontier| - 1];
      if current in reachable {
        WalkSkip(g, roots, reachable, frontier);
        frontier := rest;
        continue;
      }
      var targets := ResolveImports(imports, files, current);
      var fresh_ := Except(targets, reachable + {current});
      WalkStep(g, roots, reachable, frontier, rest + fresh_);
      reachable := reachable + {current};
      frontier := rest + fresh_;
    }
    WalkEnd(g, roots, reachable);
  }

  method Except(ts: seq<Id>, s: set<Id>) returns (r: seq<Id>)
    ensures forall t :: t in r <==> t in ts && t !in s
  {
    r := [];
    for i := 0 to |ts|
      invariant forall t :: t in r <==> t in ts[..i] && t !in s
    {
      assert ts[..i + 1] == ts[..i] + [ts[i]];
      if ts[i] !in s { r := r + [ts[i]]; }
    }
    assert ts[..|ts|] == ts;
  }

  /** The dependOn edges as a graph: what a binding depends on. */
  ghost predicate IsStepGraph(edges: seq<(Id, Id)>, g: Graph)
  {
    forall u, v :: v in Succ(g, u) <==> (u, v) in edges
  }

  method CollectEdges(edges: seq<(Id, Id)>) returns (g: Graph)
    ensures IsStepGraph(edges, g)
  {
    g := map[];
    for i := 0 to |edges|
      invariant IsStepGraph(edges[..i], g)
    {
      var owner, target := edges[i].0, edges[i].1;
      assert edges[..i + 1] == edges[..i] + [(owner, target)];
      g := g[owner := Succ(g, owner) + {target}];
    }
    assert edges[..|edges|] == edges;
  }

  function AggregateSteps(steps: map<Id, string>): set<Id> { set b | b in steps && Aggregate(steps[b]) }

  /** The walk over build steps: all successors are put on the frontier, repeats are skipped when taken off. */
  method ReachSteps(g: Graph, roots: set<Id>) returns (reached: set<Id>)
    ensures forall v :: v in reached <==> ReachedFrom(g, roots, v)
  {
    reached := {};
    var frontier := Sort(Alphabetic(roots), roots);
    WalkStart(g, roots, frontier);
    while frontier != []
      invariant Walking(g, roots, reached, frontier)
      decreases Unreached(g, roots, reached), |frontier|
    {
      var current := frontier[|frontier| - 1];
      var rest := frontier[..|frontier| - 1];
      if current in reached {
        WalkSkip(g, roots, reached, frontier);
        frontier := rest;
        continue;
      }
      var next := Sort(Alphabetic(Succ(g, current)), Succ(g, current));
      WalkStep(g, roots, reached, frontier, rest + next);
      reached := reached + {current};
      frontier := rest + next;
    }
    WalkEnd(g, roots, reached);
  }

  // ---- what the report means ---------------------------------------------------------------------------

  function Owners(edges: seq<(Id, Id)>): set<Id> { set e | e in edges :: e.0 }

  function TargetsOf(edges: seq<(Id, Id)>, u: Id): set<Id> { set e | e in edges && e.0 == u :: e.1 }

  function StepGraph(edges: seq<(Id, Id)>): Graph { map u | u in Owners(edges) :: TargetsOf(edges, u) }

  lemma StepGraphIsOne(edges: seq<(Id, Id)>)
    ensures IsStepGraph(edges, StepGraph(edges))
  {
    forall u, v ensures v in Succ(StepGraph(edges), u) <==> (u, v) in edges {
      if (u, v) in edges { assert (u, v).0 == u && (u, v).1 == v; }
    }
  }

  /** Adding edges only adds reachability. */
  lemma ReachMonotone(g: Graph, h: Graph, roots: set<Id>, more: set<Id>, v: Id)
    requires (forall u :: Succ(g, u) <= Succ(h, u)) && roots <= more && ReachedFrom(g, roots, v)
    ensures ReachedFrom(h, more, v)
  {
    var r :| r in roots && Reaches(g, r, v);
    var w :| WalkBetween(g, w, r, v);
    forall i | 0 <= i < |w| - 1 ensures w[i + 1] in Succ(h, w[i]) { assert w[i + 1] in Succ(g, w[i]); }
    assert WalkBetween(h, w, r, v);
  }

  /** The names of the Run artifacts over one test binding, in file order. */
  function RunsOf(runs: seq<(Id, Id)>, artifact: Id): seq<Id>
  {
    if runs == [] then [] else
    RunsOf(runs[..|runs| - 1], artifact) + if runs[|runs| - 1].1 == artifact then [runs[|runs| - 1].0] else []
  }

  ghost predicate StepReached(b: Build, v: Id) { ReachedFrom(StepGraph(b.dependsOn), AggregateSteps(b.steps), v) }

  /** Some Run artifact over this test binding is reached from an aggregate step. */
  ghost predicate Executes(b: Build, artifact: Id)
  {
    artifact in b.tests && exists r :: r in RunsOf(b.runs, artifact) && StepReached(b, r)
  }

  ghost function ExecutedRoots(b: Build): set<Id>
  {
    set a | a in b.tests && b.tests[a].Some? && b.tests[a].value in b.files && Executes(b, a) :: b.tests[a].value
  }

  /** The file is pulled into a binary that runs. */
  ghost predicate FileExecutes(b: Build, f: Id) { ReachedFrom(ImportGraph(b.imports, b.files), ExecutedRoots(b), f) }

  ghost predicate Reported(b: Build, artifact: Id)
  {
    && artifact in b.tests && RunsOf(b.runs, artifact) != []
    && !Executes(b, artifact)
    && !(b.tests[artifact].Some? && FileExecutes(b, b.tests[artifact].value))
  }

  // ---- what is promised, in terms of the build file --------------------------------------------------------

  /** A chain of dependOn edges from the step `test` or the step `test-integration`. */
  ghost predicate StepChain(b: Build, w: seq<Id>)
  {
    && |w| > 0 && w[0] in b.steps && (b.steps[w[0]] == "test" || b.steps[w[0]] == "test-integration")
    && forall i | 0 <= i < |w| - 1 :: (w[i], w[i + 1]) in b.dependsOn
  }

  /** Some run of the test binary is at the end of such a chain. */
  ghost predicate IsRun(b: Build, artifact: Id)
  {
    artifact in b.tests && exists w :: StepChain(b, w) && (w[|w| - 1], artifact) in b.runs
  }

  /** A chain of imports of existing files, from the root file of a test binary that is run. */
  ghost predicate ImportChain(b: Build, w: seq<Id>)
  {
    && |w| > 0 && w[0] in b.files && (exists a :: IsRun(b, a) && b.tests[a] == Some(w[0]))
    && forall i | 0 <= i < |w| - 1 :: ImportsFile(b, w[i], w[i + 1])
  }

  ghost predicate ImportsFile(b: Build, f: Id, t: Id) { f in b.imports && t in b.imports[f] && t in b.files }

  ghost predicate IsCompiledIn(b: Build, f: Id) { exists w :: ImportChain(b, w) && w[|w| - 1] == f }

  /** The test binary has runs, none of them is run by an aggregate step, and its root file, if it names one, is in no
      binary that is. */
  ghost predicate NeverRun(b: Build, artifact: Id)
  {
    && artifact in b.tests && (exists run :: (run, artifact) in b.runs)
    && !IsRun(b, artifact)
    && forall f | b.tests[artifact] == Some(f) :: !IsCompiledIn(b, f)
  }

  lemma {:induction false} RunsOfMeaning(runs: seq<(Id, Id)>, artifact: Id)
    ensures forall r :: r in RunsOf(runs, artifact) <==> (r, artifact) in runs
    ensures RunsOf(runs, artifact) != [] ==> FirstRun(runs, artifact, RunsOf(runs, artifact)[0])
  {
    if runs != [] {
      var init, last := runs[..|runs| - 1], runs[|runs| - 1];
      RunsOfMeaning(init, artifact);
      assert runs == init + [last];
      if RunsOf(init, artifact) == [] {
        assert forall i | 0 <= i < |init| :: init[i].1 == artifact ==> (init[i].0, artifact) in init;
        assert last.1 == artifact ==> FirstRunAt(runs, artifact, last.0, |init|);
      } else {
        var i: nat :| FirstRunAt(init, artifact, RunsOf(init, artifact)[0], i);
        assert FirstRunAt(runs, artifact, RunsOf(init, artifact)[0], i);
      }
    }
  }

  /** The first run of the binary in the file is `run`. */
  ghost predicate FirstRun(runs: seq<(Id, Id)>, artifact: Id, run: Id)
  {
    exists i: nat :: FirstRunAt(runs, artifact, run, i)
  }

  ghost predicate FirstRunAt(runs: seq<(Id, Id)>, artifact: Id, run: Id, i: nat)
  {
    i < |runs| && runs[i] == (run, artifact) && forall j | 0 <= j < i :: runs[j].1 != artifact
  }

  lemma StepChainMeaning(b: Build, v: Id)
    ensures StepReached(b, v) <==> exists w :: StepChain(b, w) && w[|w| - 1] == v
  {
    var g, roots := StepGraph(b.dependsOn), AggregateSteps(b.steps);
    StepGraphIsOne(b.dependsOn);
    if StepReached(b, v) {
      var r :| r in roots && Reaches(g, r, v);
      var w :| WalkBetween(g, w, r, v);
      assert StepChain(b, w);
    }
    if w :| StepChain(b, w) && w[|w| - 1] == v { assert WalkBetween(g, w, w[0], v) && w[0] in roots; }
  }

  lemma ExecutesMeaning(b: Build, a: Id)
    ensures Executes(b, a) <==> IsRun(b, a)
  {
    RunsOfMeaning(b.runs, a);
    if Executes(b, a) {
      var r :| r in RunsOf(b.runs, a) && StepReached(b, r);
      StepChainMeaning(b, r);
    }
    if IsRun(b, a) {
      var w :| StepChain(b, w) && (w[|w| - 1], a) in b.runs;
      StepChainMeaning(b, w[|w| - 1]);
    }
  }

  lemma RootsMeaning(b: Build, f: Id)
    ensures f in ExecutedRoots(b) <==> f in b.files && exists a :: IsRun(b, a) && b.tests[a] == Some(f)
  {
    forall a ensures Executes(b, a) <==> IsRun(b, a) { ExecutesMeaning(b, a); }
    if a :| IsRun(b, a) && b.tests[a] == Some(f) && f in b.files { assert Executes(b, a); }
  }

  lemma ImportWalk(b: Build, w: seq<Id>)
    ensures ImportChain(b, w) <==> IsWalk(ImportGraph(b.imports, b.files), w) && w[0] in ExecutedRoots(b)
  {
    var g := ImportGraph(b.imports, b.files);
    if w != [] { RootsMeaning(b, w[0]); }
    forall u, v ensures v in Succ(g, u) <==> ImportsFile(b, u, v) {}
  }

  lemma ImportChainMeaning(b: Build, f: Id)
    ensures FileExecutes(b, f) <==> IsCompiledIn(b, f)
  {
    var g, roots := ImportGraph(b.imports, b.files), ExecutedRoots(b);
    if FileExecutes(b, f) {
      var r :| r in roots && Reaches(g, r, f);
      var w :| WalkBetween(g, w, r, f);
      ImportWalk(b, w);
    }
    if w :| ImportChain(b, w) && w[|w| - 1] == f {
      ImportWalk(b, w);
      assert WalkBetween(g, w, w[0], f);
    }
  }

  lemma ReportedMeaning(b: Build, artifact: Id)
    ensures Reported(b, artifact) <==> NeverRun(b, artifact)
  {
    RunsOfMeaning(b.runs, artifact);
    ExecutesMeaning(b, artifact);
    forall f ensures FileExecutes(b, f) <==> IsCompiledIn(b, f) { ImportChainMeaning(b, f); }
    assert forall run | (run, artifact) in b.runs :: run in RunsOf(b.runs, artifact);
    assert RunsOf(b.runs, artifact) != [] ==> (RunsOf(b.runs, artifact)[0], artifact) in b.runs;
  }

  /** `more` is `b` with further dependOn edges and imports. */
  ghost predicate MoreWired(b: Build, more: Build)
  {
    && b.tests == more.tests && b.steps == more.steps && b.runs == more.runs && b.files == more.files
    && (forall e | e in b.dependsOn :: e in more.dependsOn)
    && (forall f | f in b.imports :: f in more.imports && forall t | t in b.imports[f] :: t in more.imports[f])
  }

  /** Wiring something up never produces a report. */
  lemma ReportsShrink(b: Build, more: Build, artifact: Id)
    requires MoreWired(b, more) && Reported(more, artifact)
    ensures Reported(b, artifact)
  {
    forall a | Executes(b, a) ensures Executes(more, a) { ExecutesMonotone(b, more, a); }
    if b.tests[artifact].Some? && FileExecutes(b, b.tests[artifact].value) {
      var g, h := ImportGraph(b.imports, b.files), ImportGraph(more.imports, more.files);
      forall u ensures Succ(g, u) <= Succ(h, u) {}
      ReachMonotone(g, h, ExecutedRoots(b), ExecutedRoots(more), b.tests[artifact].value);
    }
  }

  lemma ExecutesMonotone(b: Build, more: Build, a: Id)
    requires MoreWired(b, more) && Executes(b, a)
    ensures Executes(more, a)
  {
    var r :| r in RunsOf(b.runs, a) && StepReached(b, r);
    StepGraphIsOne(b.dependsOn);
    StepGraphIsOne(more.dependsOn);
    forall u ensures Succ(StepGraph(b.dependsOn), u) <= Succ(StepGraph(more.dependsOn), u) {
      forall v | v in Succ(StepGraph(b.dependsOn), u) ensures v in Succ(StepGraph(more.dependsOn), u) {
        assert (u, v) in b.dependsOn;
      }
    }
    ReachMonotone(StepGraph(b.dependsOn), StepGraph(more.dependsOn), AggregateSteps(b.steps),
      AggregateSteps(more.steps), r);
  }

  // ---- find_unattached_run_artifacts -------------------------------------------------------------------

  datatype Unattached = Unattached(run: Id, artifact: Id, attachedSomewhere: bool)

  function GroupOf(groups: map<Id, seq<Id>>, a: Id): seq<Id> { if a in groups then groups[a] else [] }

  /** The groups hold every Run artifact over a test binding. */
  ghost predicate Grouped(tests: map<Id, Option<Id>>, runs: seq<(Id, Id)>, groups: map<Id, seq<Id>>)
  {
    forall a :: GroupedAt(tests, runs, groups, a)
  }

  ghost predicate GroupedAt(tests: map<Id, Option<Id>>, runs: seq<(Id, Id)>, groups: map<Id, seq<Id>>, a: Id)
  {
    && GroupOf(groups, a) == (if a in tests then RunsOf(runs, a) else [])
    && (a in groups ==> a in tests && groups[a] != [])
  }

  lemma GroupStep(tests: map<Id, Option<Id>>, runs: seq<(Id, Id)>, groups: map<Id, seq<Id>>, run: (Id, Id))
    requires Grouped(tests, runs, groups)
    ensures run.1 !in tests ==> Grouped(tests, runs + [run], groups)
    ensures run.1 in tests ==> Grouped(tests, runs + [run], groups[run.1 := GroupOf(groups, run.1) + [run.0]])
  {
    assert (runs + [run])[..|runs|] == runs;
    var more := groups[run.1 := GroupOf(groups, run.1) + [run.0]];
    forall a
      ensures run.1 !in tests ==> GroupedAt(tests, runs + [run], groups, a)
      ensures run.1 in tests ==> GroupedAt(tests, runs + [run], more, a)
    {
      assert GroupedAt(tests, runs, groups, a);
      assert RunsOf(runs + [run], a) == RunsOf(runs, a) + if run.1 == a then [run.0] else [];
      assert RunsOf(runs, a) + [] == RunsOf(runs, a);
    }
  }

  /** The artifacts in the order in which the grouping meets them. */
  function FirstSeen(tests: map<Id, Option<Id>>, runs: seq<(Id, Id)>): seq<Id>
  {
    if runs == [] then [] else
    var seen, a := FirstSeen(tests, runs[..|runs| - 1]), runs[|runs| - 1].1;
    if a in tests && a !in seen then seen + [a] else seen
  }

  lemma {:induction false} FirstSeenMeaning(tests: map<Id, Option<Id>>, runs: seq<(Id, Id)>)
    ensures forall a :: a in FirstSeen(tests, runs) <==> a in tests && RunsOf(runs, a) != []
    ensures Distinct(FirstSeen(tests, runs))
  {
    if runs != [] {
      var seen, a := FirstSeen(tests, runs[..|runs| - 1]), runs[|runs| - 1].1;
      FirstSeenMeaning(tests, runs[..|runs| - 1]);
      if a !in seen { AppendNew(seen, a); }
    }
  }

  /** The dict of groups, and its order. */
  method GroupRuns(tests: map<Id, Option<Id>>, runs: seq<(Id, Id)>) returns (groups: map<Id, seq<Id>>, order: seq<Id>)
    ensures Grouped(tests, runs, groups) && order == FirstSeen(tests, runs)
  {
    groups, order := map[], [];
    for i := 0 to |runs|
      invariant Grouped(tests, runs[..i], groups) && order == FirstSeen(tests, runs[..i])
    {
      GroupStep(tests, runs[..i], groups, runs[i]);
      FirstSeenMeaning(tests, runs[..i]);
      assert runs[..i + 1] == runs[..i] + [runs[i]] && runs[..i + 1][..i] == runs[..i];
      var artifact := runs[i].1;
      if artifact in tests {
        assert GroupedAt(tests, runs[..i], groups, artifact);
        if artifact !in groups { order := order + [artifact]; }
        groups := groups[artifact := GroupOf(groups, artifact) + [runs[i].0]];
      }
    }
    assert runs[..|runs|] == runs;
  }

  method AnyIn(rs: seq<Id>, s: set<Id>) returns (b: bool)
    ensures b <==> exists r :: r in rs && r in s
  {
    for i := 0 to |rs|
      invariant forall r | r in rs[..i] :: r !in s
    {
      assert rs[..i + 1] == rs[..i] + [rs[i]];
      if rs[i] in s { return true; }
    }
    assert rs[..|rs|] == rs;
    return false;
  }

  /** `reached` is what the walk over build steps reaches. */
  ghost predicate StepsReached(b: Build, reached: set<Id>)
  {
    forall v :: v in reached <==> StepReached(b, v)
  }

  method WalkSteps(b: Build) returns (reached: set<Id>)
    ensures StepsReached(b, reached)
  {
    var g := CollectEdges(b.dependsOn);
    var roots := AggregateSteps(b.steps);
    reached := ReachSteps(g, roots);
    var h := StepGraph(b.dependsOn);
    StepGraphIsOne(b.dependsOn);
    forall u ensures Succ(g, u) == Succ(h, u) {
      assert forall v :: v in Succ(g, u) <==> (u, v) in b.dependsOn;
    }
    forall v ensures v in reached <==> StepReached(b, v) {
      if ReachedFrom(g, roots, v) { ReachMonotone(g, h, roots, roots, v); }
      if ReachedFrom(h, roots, v) { ReachMonotone(h, g, roots, roots, v); }
    }
  }

  lemma ExecutesByRuns(b: Build, groups: map<Id, seq<Id>>, reached: set<Id>, a: Id)
    requires Grouped(b.tests, b.runs, groups) && StepsReached(b, reached)
    ensures Executes(b, a) <==> a in groups && exists r :: r in groups[a] && r in reached
    ensures a in groups <==> a in b.tests && RunsOf(b.runs, a) != []
    ensures a in groups ==> groups[a] == RunsOf(b.runs, a)
  {
    assert GroupedAt(b.tests, b.runs, groups, a);
  }

  /** The roots of the executing bindings in `done`. */
  ghost predicate RootsFrom(b: Build, done: set<Id>, roots: set<Id>)
  {
    (forall f | f in roots :: exists a :: RootOf(b, a, f)) &&
    forall a, f | a in done && RootOf(b, a, f) :: f in roots
  }

  method CollectExecutedRoots(b: Build, groups: map<Id, seq<Id>>, reached: set<Id>) returns (roots: set<Id>)
    requires Grouped(b.tests, b.runs, groups) && StepsReached(b, reached)
    ensures roots == ExecutedRoots(b)
  {
    roots := {};
    var todo := groups.Keys;
    while todo != {}
      invariant todo <= groups.Keys && RootsFrom(b, groups.Keys - todo, roots)
    {
      var a :| a in todo;
      ExecutesByRuns(b, groups, reached, a);
      var runsIt := AnyIn(groups[a], reached);
      var root := b.tests[a];
      if runsIt && root.Some? && root.value in b.files {
        assert RootOf(b, a, root.value);
        roots := roots + {root.value};
      }
      todo := todo - {a};
    }
    RootsComplete(b, groups, reached, roots);
  }

  lemma RootsComplete(b: Build, groups: map<Id, seq<Id>>, reached: set<Id>, roots: set<Id>)
    requires Grouped(b.tests, b.runs, groups) && StepsReached(b, reached) && RootsFrom(b, groups.Keys, roots)
    ensures roots == ExecutedRoots(b)
  {
    forall f ensures f in roots <==> f in ExecutedRoots(b) {
      if f in roots {
        var a :| RootOf(b, a, f);
        assert a in b.tests && b.tests[a].value == f;
      }
      if f in ExecutedRoots(b) {
        var a :| a in b.tests && b.tests[a].Some? && b.tests[a].value in b.files && Executes(b, a) &&
          b.tests[a].value == f;
        ExecutesByRuns(b, groups, reached, a);
        assert RootOf(b, a, f);
      }
    }
  }

  /** `f` is the existing root file of the executing test binding `a`. */
  ghost predicate RootOf(b: Build, a: Id, f: Id)
  {
    a in b.tests && b.tests[a] == Some(f) && f in b.files && Executes(b, a)
  }

  function Targets(edges: seq<(Id, Id)>): set<Id> { set e | e in edges :: e.1 }

  ghost predicate EntryOk(b: Build, u: Unattached)
  {
    && Reported(b, u.artifact) && u.run == RunsOf(b.runs, u.artifact)[0]
    && (u.attachedSomewhere <==> exists r :: r in RunsOf(b.runs, u.artifact) && r in Targets(b.dependsOn))
  }

  function Artifacts(out: seq<Unattached>): seq<Id>
  {
    seq(|out|, i requires 0 <= i < |out| => out[i].artifact)
  }

  /** Those of `names` that are to be reported, in order. */
  ghost function ReportedAmong(b: Build, names: seq<Id>): seq<Id>
  {
    if names == [] then [] else
    ReportedAmong(b, names[..|names| - 1]) + if Reported(b, names[|names| - 1]) then [names[|names| - 1]] else []
  }

  lemma {:induction false} ReportedAmongMeaning(b: Build, names: seq<Id>)
    requires Distinct(names)
    ensures forall a :: a in ReportedAmong(b, names) <==> a in names && Reported(b, a)
    ensures Distinct(ReportedAmong(b, names))
  {
    if names != [] {
      var init, last := names[..|names| - 1], names[|names| - 1];
      ReportedAmongMeaning(b, init);
      assert names == init + [last] && last !in init;
      AppendNew(ReportedAmong(b, init), last);
    }
  }

  /** The report lists exactly the artifacts that `Reported` describes, each once, in the order of their first runs. */
  method FindUnattachedRunArtifacts(b: Build) returns (out: seq<Unattached>)
    ensures Artifacts(out) == ReportedAmong(b, FirstSeen(b.tests, b.runs))
    ensures forall a :: a in Artifacts(out) <==> Reported(b, a)
    ensures Distinct(Artifacts(out))
    ensures forall i | 0 <= i < |out| :: EntryOk(b, out[i])
    ensures forall a :: NeverRun(b, a) <==> exists i :: 0 <= i < |out| && out[i].artifact == a
    ensures forall i | 0 <= i < |out| :: EntryAsPromised(b, out[i])
    ensures forall i, j | 0 <= i < j < |out| :: RunsFirst(b.runs, out[i].artifact, out[j].artifact)
  {
    var reached := WalkSteps(b);
    var groups, names := GroupRuns(b.tests, b.runs);
    var roots := CollectExecutedRoots(b, groups, reached);
    var executed := ReachableFromRoots(b.imports, b.files, roots);
    FirstSeenMeaning(b.tests, b.runs);
    out := JudgeAll(b, groups, reached, executed, names);
    ReportedAmongMeaning(b, names);
    ReportAsPromised(b, out);
  }

  /** The report names the first run, and says whether any run is what some step depends on. */
  ghost predicate EntryAsPromised(b: Build, u: Unattached)
  {
    && FirstRun(b.runs, u.artifact, u.run)
    && (u.attachedSomewhere <==>
          exists run, owner :: (run, u.artifact) in b.runs && (owner, run) in b.dependsOn)
  }

  /** `a` is run earlier in the file than `c`. */
  ghost predicate RunsFirst(runs: seq<(Id, Id)>, a: Id, c: Id)
  {
    exists i: nat, j: nat, r, s :: i < j && FirstRunAt(runs, a, r, i) && FirstRunAt(runs, c, s, j)
  }

  ghost predicate InRunOrder(runs: seq<(Id, Id)>, names: seq<Id>)
  {
    forall i, j | 0 <= i < j < |names| :: RunsFirst(runs, names[i], names[j])
  }

  lemma RunsFirstGrows(runs: seq<(Id, Id)>, more: (Id, Id), a: Id, c: Id)
    requires RunsFirst(runs, a, c)
    ensures RunsFirst(runs + [more], a, c)
  {
    var i: nat, j: nat, r, s :| i < j && FirstRunAt(runs, a, r, i) && FirstRunAt(runs, c, s, j);
    assert FirstRunAt(runs + [more], a, r, i) && FirstRunAt(runs + [more], c, s, j);
  }

  lemma {:induction false} FirstSeenOrder(tests: map<Id, Option<Id>>, runs: seq<(Id, Id)>)
    ensures InRunOrder(runs, FirstSeen(tests, runs))
  {
    if runs != [] {
      var init, last := runs[..|runs| - 1], runs[|runs| - 1];
      FirstSeenOrder(tests, init);
      FirstSeenMeaning(tests, init);
      assert runs == init + [last];
      var seen, names := FirstSeen(tests, init), FirstSeen(tests, runs);
      forall i, j | 0 <= i < j < |names| ensures RunsFirst(runs, names[i], names[j]) {
        if j < |seen| {
          RunsFirstGrows(init, last, names[i], names[j]);
        } else {
          LastRunsLast(tests, init, last, names[i]);
        }
      }
    }
  }

  /** A binary that is met last is run after all others. */
  lemma LastRunsLast(tests: map<Id, Option<Id>>, init: seq<(Id, Id)>, last: (Id, Id), a: Id)
    requires a in FirstSeen(tests, init) && last.1 in tests && last.1 !in FirstSeen(tests, init)
    ensures RunsFirst(init + [last], a, last.1)
  {
    FirstSeenMeaning(tests, init);
    RunsOfMeaning(init, a);
    RunsOfMeaning(init, last.1);
    var i: nat :| FirstRunAt(init, a, RunsOf(init, a)[0], i);
    assert FirstRunAt(init + [last], a, RunsOf(init, a)[0], i);
    assert forall j | 0 <= j < |init| :: init[j].1 == last.1 ==> (init[j].0, last.1) in init;
    assert FirstRunAt(init + [last], last.1, last.0, |init|);
  }

  lemma {:induction false} ReportedInOrder(b: Build, names: seq<Id>)
    requires InRunOrder(b.runs, names)
    ensures InRunOrder(b.runs, ReportedAmong(b, names))
    ensures forall a | a in ReportedAmong(b, names) :: a in names
  {
    if names != [] {
      var init, last := names[..|names| - 1], names[|names| - 1];
      assert names == init + [last];
      ReportedInOrder(b, init);
      forall i | 0 <= i < |ReportedAmong(b, init)| ensures RunsFirst(b.runs, ReportedAmong(b, init)[i], last) {
        assert ReportedAmong(b, init)[i] in init;
        var k :| 0 <= k < |init| && init[k] == ReportedAmong(b, init)[i];
        assert names[k] == init[k] && names[|names| - 1] == last;
      }
    }
  }

  lemma EntryMeaning(b: Build, u: Unattached)
    requires EntryOk(b, u)
    ensures EntryAsPromised(b, u)
  {
    RunsOfMeaning(b.runs, u.artifact);
    if r :| r in RunsOf(b.runs, u.artifact) && r in Targets(b.dependsOn) {
      var e :| e in b.dependsOn && e.1 == r;
      assert (e.0, r) in b.dependsOn;
    }
    if run, owner :| (run, u.artifact) in b.runs && (owner, run) in b.dependsOn {
      assert (owner, run).1 == run;
    }
  }

  lemma ReportAsPromised(b: Build, out: seq<Unattached>)
    requires Artifacts(out) == ReportedAmong(b, FirstSeen(b.tests, b.runs))
    requires forall a :: a in Artifacts(out) <==> Reported(b, a)
    requires forall i | 0 <= i < |out| :: EntryOk(b, out[i])
    ensures forall a :: NeverRun(b, a) <==> exists i :: 0 <= i < |out| && out[i].artifact == a
    ensures forall i | 0 <= i < |out| :: EntryAsPromised(b, out[i])
    ensures forall i, j | 0 <= i < j < |out| :: RunsFirst(b.runs, out[i].artifact, out[j].artifact)
  {
    forall a ensures NeverRun(b, a) <==> exists i :: 0 <= i < |out| && out[i].artifact == a {
      ReportedMeaning(b, a);
      if a in Artifacts(out) { var i :| 0 <= i < |out| && Artifacts(out)[i] == a; }
      if i :| 0 <= i < |out| && out[i].artifact == a { assert Artifacts(out)[i] == a; }
    }
    forall i | 0 <= i < |out| ensures EntryAsPromised(b, out[i]) { EntryMeaning(b, out[i]); }
    FirstSeenOrder(b.tests, b.runs);
    ReportedInOrder(b, FirstSeen(b.tests, b.runs));
    forall i, j | 0 <= i < j < |out| ensures RunsFirst(b.runs, out[i].artifact, out[j].artifact) {
      assert Artifacts(out)[i] == out[i].artifact && Artifacts(out)[j] == out[j].artifact;
    }
  }

  method JudgeAll(b: Build, groups: map<Id, seq<Id>>, reached: set<Id>, executed: set<Id>, names: seq<Id>)
    returns (out: seq<Unattached>)
    requires Grouped(b.tests, b.runs, groups) && StepsReached(b, reached)
    requires forall f :: f in executed <==> FileExecutes(b, f)
    requires forall a | a in names :: a in b.tests && RunsOf(b.runs, a) != []
    ensures ReportOn(b, names, out)
  {
    out := [];
    for i := 0 to |names|
      invariant ReportOn(b, names[..i], out)
    {
      assert names[i] in names && GroupedAt(b.tests, b.runs, groups, names[i]);
      var entry := Judge(b, groups, reached, executed, names[i]);
      ReportStep(b, names, i, out, entry);
      if entry.Some? { out := out + [entry.value]; }
    }
    assert names[..|names|] == names;
  }

  /** The three tests on one artifact. */
  method Judge(b: Build, groups: map<Id, seq<Id>>, reached: set<Id>, executed: set<Id>, a: Id)
    returns (entry: Option<Unattached>)
    requires Grouped(b.tests, b.runs, groups) && StepsReached(b, reached) && a in groups
    requires forall f :: f in executed <==> FileExecutes(b, f)
    ensures entry.Some? <==> Reported(b, a)
    ensures entry.Some? ==> entry.value.artifact == a && EntryOk(b, entry.value)
  {
    ExecutesByRuns(b, groups, reached, a);
    var runsIt := AnyIn(groups[a], reached);
    if runsIt { return None; }
    var root := b.tests[a];
    if root.Some? && root.value in executed { return None; }
    var attached := AnyIn(groups[a], Targets(b.dependsOn));
    return Some(Unattached(groups[a][0], a, attached));
  }

  /** `out` reports on the names looked at so far. */
  ghost predicate ReportOn(b: Build, names: seq<Id>, out: seq<Unattached>)
  {
    (forall i | 0 <= i < |out| :: EntryOk(b, out[i])) && Artifacts(out) == ReportedAmong(b, names)
  }

  lemma ReportStep(b: Build, names: seq<Id>, i: nat, out: seq<Unattached>, entry: Option<Unattached>)
    requires i < |names| && ReportOn(b, names[..i], out)
    requires entry.Some? <==> Reported(b, names[i])
    requires entry.Some? ==> EntryOk(b, entry.value) && entry.value.artifact == names[i]
    ensures ReportOn(b, names[..i + 1], if entry.Some? then out + [entry.value] else out)
  {
    assert names[..i + 1][..i] == names[..i];
    if entry.Some? { assert Artifacts(out + [entry.value]) == Artifacts(out) + [names[i]]; }
  }
}
