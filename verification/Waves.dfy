/** Levelling the prerequisite graph into waves, the checks around it, and what releasing a requirement does. */
module Waves {
  import opened Depsort
  import opened Graphs
  import opened Orders
  import opened Registry

  /** Ties within a wave: stage, then priority, then id. */
  function OrderKey(r: Requirement, k: Id): SortKey
  {
    var rank := match r.priority { case None => 3 case Some(p) => PriorityRank(p) };
    match r.stage.kind
    case Integer(n) => SortKey(0, n as real, "", rank, k)
    case Decimal(x) => SortKey(0, x, "", rank, k)
    case FStage(f) => SortKey(1, f as real, "", rank, k)
    case FreeText => SortKey(2, 0.0, r.stage.text, rank, k)
  }

  function OrderKeys(reqs: Requirements): (keys: map<Id, SortKey>)
    ensures keys.Keys == reqs.Keys && KeysIdentify(keys)
  {
    map k | k in reqs :: OrderKey(reqs[k], k)
  }

  /** `w` lists the ids placed in round `i + 1`, in wave order. */
  ghost predicate IsWave(reqs: Requirements, g: Graph, i: nat, w: seq<Id>)
  {
    w != [] && Lists(OrderKeys(reqs), Placed(g, i + 1) - Placed(g, i), w)
  }

  /** `out` lists the first waves, none of them empty. */
  ghost predicate AreWaves(reqs: Requirements, g: Graph, out: seq<seq<Id>>)
  {
    forall i | 0 <= i < |out| :: IsWave(reqs, g, i, out[i])
  }

  // ---- what is promised, in terms of the requirements ------------------------------------------------------

  /** Numeric stages first, then F-stages, both by number, then the others by text. */
  ghost predicate EarlierStage(a: Stage, b: Stage)
  {
    match (a.kind, b.kind)
    case (Integer(m), Integer(n)) => m < n
    case (Integer(m), Decimal(y)) => m as real < y
    case (Decimal(x), Integer(n)) => x < n as real
    case (Decimal(x), Decimal(y)) => x < y
    case (FStage(m), FStage(n)) => m < n
    case (FreeText, FreeText) => a.text != b.text && StrLeq(a.text, b.text)
    case (FStage(_), FreeText) => true
    case (Integer(_), _) => true
    case (Decimal(_), _) => true
    case _ => false
  }

  /** MUST before SHOULD before COULD before anything else or nothing. */
  ghost predicate MorePressing(p: Option<string>, q: Option<string>)
  {
    || (p == Some("MUST") && q != Some("MUST"))
    || (p == Some("SHOULD") && q != Some("MUST") && q != Some("SHOULD"))
    || (p == Some("COULD") && q != Some("MUST") && q != Some("SHOULD") && q != Some("COULD"))
  }

  /** By stage, then by priority, then by id. */
  ghost predicate ListedBefore(reqs: Requirements, a: Id, b: Id)
  {
    && a in reqs && b in reqs
    && var x, y := reqs[a], reqs[b];
       EarlierStage(x.stage, y.stage) ||
       (!EarlierStage(y.stage, x.stage) &&
        (MorePressing(x.priority, y.priority) ||
         (!MorePressing(y.priority, x.priority) && a.name != b.name && StrLeq(a.name, b.name))))
  }

  ghost predicate InWaves(out: seq<seq<Id>>, n: nat, k: Id)
  {
    exists j: nat :: j < n && j < |out| && k in out[j]
  }

  /** `k` is in no wave yet, and all that must come before it is. */
  ghost predicate DueAfter(g: Graph, out: seq<seq<Id>>, n: nat, k: Id)
  {
    k in g && !InWaves(out, n, k) && forall p | p in g[k] :: InWaves(out, n, p)
  }

  /** Every wave lists, in order, exactly what is due after the waves before it; there is no empty wave, and after the
      last one nothing is due. */
  ghost predicate WavesAsPromised(reqs: Requirements, g: Graph, out: seq<seq<Id>>)
  {
    && (forall i: nat, k | i < |out| :: k in out[i] <==> DueAfter(g, out, i, k))
    && (forall i: nat | i < |out| :: out[i] != [] && InListOrder(reqs, out[i]))
    && forall k :: !DueAfter(g, out, |out|, k)
  }

  ghost predicate InListOrder(reqs: Requirements, wave: seq<Id>)
  {
    forall a, b | 0 <= a < b < |wave| :: ListedBefore(reqs, wave[a], wave[b])
  }

  lemma OrderMeaning(reqs: Requirements, a: Id, b: Id)
    requires a in reqs && b in reqs
    ensures KeyLeq(OrderKey(reqs[a], a), OrderKey(reqs[b], b)) <==> a == b || ListedBefore(reqs, a, b)
  {
    StrTotal(a.name, b.name);
    StrTotal(reqs[a].stage.text, reqs[b].stage.text);
  }

  lemma ListOrder(reqs: Requirements, s: set<Id>, wave: seq<Id>)
    requires Lists(OrderKeys(reqs), s, wave)
    ensures InListOrder(reqs, wave)
  {
    forall a, b | 0 <= a < b < |wave| ensures ListedBefore(reqs, wave[a], wave[b]) {
      assert Precedes(OrderKeys(reqs), wave[a], wave[b]);
      OrderMeaning(reqs, wave[a], wave[b]);
    }
  }

  lemma {:induction false} InWavesMeaning(reqs: Requirements, g: Graph, out: seq<seq<Id>>, n: nat, k: Id)
    requires AreWaves(reqs, g, out) && n <= |out|
    ensures InWaves(out, n, k) <==> k in Placed(g, n)
  {
    if n > 0 {
      InWavesMeaning(reqs, g, out, n - 1, k);
      PlacedGrows(g, n - 1);
      assert IsWave(reqs, g, n - 1, out[n - 1]);
      assert k in out[n - 1] <==> k in Placed(g, n) - Placed(g, n - 1);
      if InWaves(out, n, k) {
        var j: nat :| j < n && j < |out| && k in out[j];
        assert j < n - 1 ==> InWaves(out, n - 1, k);
      }
    }
  }

  lemma DueMeaning(reqs: Requirements, g: Graph, out: seq<seq<Id>>, n: nat, k: Id)
    requires AreWaves(reqs, g, out) && n <= |out|
    ensures DueAfter(g, out, n, k) <==> k in Placed(g, n + 1) - Placed(g, n)
  {
    forall p ensures InWaves(out, n, p) <==> p in Placed(g, n) { InWavesMeaning(reqs, g, out, n, p); }
  }

  lemma WavesMeaning(reqs: Requirements, g: Graph, out: seq<seq<Id>>)
    requires AreWaves(reqs, g, out) && Placed(g, |out|) == Final(g)
    ensures WavesAsPromised(reqs, g, out)
  {
    forall i: nat, k | i < |out| ensures k in out[i] <==> DueAfter(g, out, i, k) {
      DueMeaning(reqs, g, out, i, k);
      assert IsWave(reqs, g, i, out[i]);
    }
    forall i: nat | i < |out| ensures out[i] != [] && InListOrder(reqs, out[i]) {
      assert IsWave(reqs, g, i, out[i]);
      ListOrder(reqs, Placed(g, i + 1) - Placed(g, i), out[i]);
    }
    FinalIsFixpoint(g, |out| + 1);
    forall k ensures !DueAfter(g, out, |out|, k) { DueMeaning(reqs, g, out, |out|, k); }
  }

  /** `waves`: Kahn's algorithm, levelled. */
  method Waves(reqs: Requirements, prereqs: Graph) returns (out: seq<seq<Id>>)
    requires prereqs.Keys <= reqs.Keys
    ensures AreWaves(reqs, prereqs, out)
    ensures Placed(prereqs, |out|) == Final(prereqs)
    ensures WavesAsPromised(reqs, prereqs, out)
  {
    var remaining := prereqs;
    var placed := {};
    out := [];
    while remaining != map[]
      invariant WaveState(reqs, prereqs, out, placed, remaining)
      decreases remaining.Keys
    {
      var ready := Ready(remaining, placed);
      ReadyIsNextRound(prereqs, |out|, ready);
      if ready == {} {
        WavesMeaning(reqs, prereqs, out);
        return;
      }
      var wave := Sort(OrderKeys(reqs), ready);
      WavesGrow(reqs, prereqs, out, placed, remaining, ready, wave);
      out := out + [wave];
      placed := placed + ready;
      remaining := remaining - ready;
    }
    EmptiedIsFinal(prereqs, |out|);
    WavesMeaning(reqs, prereqs, out);
  }

  /** `remaining` is what the rounds so far have not placed. */
  ghost predicate WaveState(reqs: Requirements, g: Graph, out: seq<seq<Id>>, placed: set<Id>, remaining: Graph)
  {
    placed == Placed(g, |out|) && remaining == g - placed && AreWaves(reqs, g, out)
  }

  /** The ids all of whose prerequisites are placed. */
  function Ready(remaining: Graph, placed: set<Id>): set<Id>
  {
    set k | k in remaining && remaining[k] - placed == {}
  }

  lemma WavesGrow(reqs: Requirements, g: Graph, out: seq<seq<Id>>, placed: set<Id>, remaining: Graph,
                  ready: set<Id>, wave: seq<Id>)
    requires WaveState(reqs, g, out, placed, remaining)
    requires ready == Placed(g, |out| + 1) - Placed(g, |out|) && Placed(g, |out| + 1) == Placed(g, |out|) + ready
    requires ready != {} && Lists(OrderKeys(reqs), ready, wave)
    ensures WaveState(reqs, g, out + [wave], placed + ready, remaining - ready)
  {
    var k :| k in ready;
    assert k in wave;
    assert IsWave(reqs, g, |out|, wave);
    assert g - (placed + ready) == remaining - ready;
  }

  lemma EmptyDifference(a: set<Id>, b: set<Id>)
    ensures a - b == {} <==> a <= b
  {
    if a - b == {} { forall x | x in a ensures x in b { assert x !in a - b; } }
  }

  lemma ReadyIsNextRound(g: Graph, n: nat, ready: set<Id>)
    requires ready == Ready(g - Placed(g, n), Placed(g, n))
    ensures ready == Placed(g, n + 1) - Placed(g, n) && Placed(g, n + 1) == Placed(g, n) + ready
    ensures ready == {} ==> Placed(g, n) == Final(g)
  {
    PlacedGrows(g, n);
    forall k | k in g ensures k in Placed(g, n + 1) <==> g[k] - Placed(g, n) == {} {
      EmptyDifference(g[k], Placed(g, n));
    }
    if ready == {} { StableIsFinal(g, n); }
  }

  lemma EmptiedIsFinal(g: Graph, n: nat)
    requires g - Placed(g, n) == map[]
    ensures Placed(g, n) == Final(g)
  {
    assert (g - Placed(g, n)).Keys == g.Keys - Placed(g, n);
    EmptyDifference(g.Keys, Placed(g, n));
    FinalIsFixpoint(g, n);
  }

  lemma StableIsFinal(g: Graph, n: nat)
    requires Placed(g, n + 1) - Placed(g, n) == {}
    ensures Placed(g, n) == Final(g)
  {
    PlacedGrows(g, n);
    FinalIsFixpoint(g, n);
    EmptyDifference(Placed(g, n + 1), Placed(g, n));
    if n < |g| { PlacedStable(g, n, |g|); }
  }

  /** The number of waves is the length of the longest prerequisite chain among the ids that can be placed. */
  lemma WaveCountIsCriticalPath(g: Graph, n: nat)
    requires Placed(g, n) == Final(g) && (n > 0 ==> Placed(g, n) - Placed(g, n - 1) != {})
    ensures forall w | IsWalk(g, w) && w[0] in Final(g) :: |w| <= n
    ensures n > 0 ==> exists w :: IsWalk(g, w) && w[0] in Final(g) && |w| == n
  {
    forall w | IsWalk(g, w) && w[0] in Final(g) ensures |w| <= n { WalkDescends(g, w, n); }
    if n > 0 {
      var k :| k in Placed(g, n) - Placed(g, n - 1);
      var w := LongestChain(g, k, n);
    }
  }

  /** `check`: the search and the levelling agree on whether there is a cycle, and the unplaced ids are exactly
      those from which a cycle can be reached. */
  method Check(register: Requirements, cat: Catalogue, includeDone: bool)
    returns (cycles: seq<seq<Id>>, unplaced: seq<Id>, pass: bool)
    requires cat.Valid()
    ensures var g := Prereqs(Load(register), cat, Scheduled(Load(register), includeDone));
            && (forall c | c in cycles :: SimpleCycle(g, c))
            && (forall k :: k in unplaced <==> k in g && ReachesCycle(g, k))
            && (cycles == [] <==> unplaced == [])
            && (pass <==> Acyclic(g))
            && IsPrerequisiteGraph(Load(register), cat, includeDone, g)
  {
    var reqs := Load(register);
    var scheduled, g, _, _ := BuildGraph(reqs, cat, includeDone);
    var finder := new CycleFinder(g);
    finder.FindCycles();
    cycles := finder.found;
    var ws := Waves(reqs, g);
    var placed := PlacedIn(reqs, g, ws);
    unplaced := Sort(Alphabetic(g.Keys - placed), g.Keys - placed);
    UnplacedDecides(g, unplaced);
    pass := cycles == [] && unplaced == [];
  }

  lemma UnplacedDecides(g: Graph, unplaced: seq<Id>)
    requires Closed(g) && forall k :: k in unplaced <==> k in g.Keys - Final(g)
    ensures forall k :: k in unplaced <==> k in g && ReachesCycle(g, k)
    ensures unplaced == [] <==> Acyclic(g)
  {
    forall k | k in g ensures k !in Final(g) <==> ReachesCycle(g, k) { UnplacedIffReachesCycle(g, k); }
    AcyclicIffAllPlaced(g);
    if unplaced == [] {
      assert g.Keys - Final(g) == {} by { forall k ensures k !in g.Keys - Final(g) { assert k !in unplaced; } }
      EmptyDifference(g.Keys, Final(g));
    } else {
      assert unplaced[0] in unplaced;
    }
  }

  lemma WaveMembers(reqs: Requirements, g: Graph, ws: seq<seq<Id>>, i: nat)
    requires g.Keys <= reqs.Keys && AreWaves(reqs, g, ws) && i < |ws|
    ensures Placed(g, i) + (set k | k in ws[i]) == Placed(g, i + 1)
  {
    PlacedGrows(g, i);
    assert IsWave(reqs, g, i, ws[i]);
  }

  /** The union of the waves. */
  method PlacedIn(reqs: Requirements, g: Graph, ws: seq<seq<Id>>) returns (placed: set<Id>)
    requires g.Keys <= reqs.Keys
    requires AreWaves(reqs, g, ws)
    ensures placed == Placed(g, |ws|)
  {
    placed := {};
    for i := 0 to |ws|
      invariant placed == Placed(g, i)
    {
      WaveMembers(reqs, g, ws, i);
      placed := placed + set k | k in ws[i];
    }
  }

  ghost predicate OnCycle(g: Graph, k: Id) { exists w :: ClosedWalk(g, w) && k in w }

  /** The label "in a cycle" is right for an id if and only if the id is among its own prerequisites. */
  lemma OnCycleIff(g: Graph, k: Id)
    ensures OnCycle(g, k) <==> StrictlyReaches(g, k, k)
  {
    StrictWalk(g, k, k);
    if w :| WalkBetween(g, w, k, k) && |w| >= 2 {
      assert ClosedWalk(g, w) && w[0] == k;
    }
    if w :| ClosedWalk(g, w) && k in w {
      var j :| 0 <= j < |w| && w[j] == k;
      Rotated(g, w, if j == |w| - 1 then 0 else j);
    }
  }

  /** A closed walk can start anywhere. */
  lemma Rotated(g: Graph, w: seq<Id>, i: nat)
    requires ClosedWalk(g, w) && i < |w| - 1
    ensures WalkBetween(g, w[i..] + w[1..i + 1], w[i], w[i])
  {
    var r := w[i..] + w[1..i + 1];
    forall j | 0 <= j < |r| - 1 ensures r[j + 1] in Succ(g, r[j]) {
      var k := if j < |w| - i - 1 then i + j else j - (|w| - i) + 1;
      assert r[j] == w[k] && r[j + 1] == w[k + 1];
      assert w[k + 1] in Succ(g, w[k]);
    }
  }

  function Extending(refs: set<Id>): Requirement
  {
    Requirement(RequirementEntry, "DRAFT", None, Stage("1", Integer(1)), "", refs, None, {})
  }

  /** The check labels every unplaced id "in a cycle". Here AB-1 and AB-2 extend each other, and AB-3 extends AB-1: it
      is unplaced without lying on a cycle. */
  lemma UnplacedNeedNotBeOnACycle()
    ensures var a, b, c := Id("AB-1"), Id("AB-2"), Id("AB-3");
            var register: Requirements := map[a := Extending({b}), b := Extending({a}), c := Extending({a})];
            var g := OpenGraph(register, Catalogue([], map[]));
            c in g && ReachesCycle(g, c) && !OnCycle(g, c)
  {
    var a, b, c := Id("AB-1"), Id("AB-2"), Id("AB-3");
    assert a.name[3] != b.name[3] && a.name[3] != c.name[3] && b.name[3] != c.name[3];
    var register: Requirements := map[a := Extending({b}), b := Extending({a}), c := Extending({a})];
    var cat := Catalogue([], map[]);
    var reqs := Load(register);
    assert reqs == register && Scheduled(reqs, false) == {a, b, c};
    var g := OpenGraph(register, cat);
    var all := {a, b, c};
    assert forall k :: Owner([], cat.byId, k) == None && WorkflowEdges(cat, all, k) == {};
    assert ExtendsEdges(reqs, all, a) == {b} && ExtendsEdges(reqs, all, b) == {a} && ExtendsEdges(reqs, all, c) == {a};
    assert g.Keys == all && g[a] == {b} && g[b] == {a} && g[c] == {a};
    assert WalkBetween(g, [c, a], c, a) && ClosedWalk(g, [a, b, a]);
    assert [a, b, a][0] == a;
    OnCycleIff(g, c);
    ClosedSetAbsorbsUnless(g, {a, b}, a, c);
  }

  lemma ClosedSetAbsorbsUnless(g: Graph, s: set<Id>, a: Id, c: Id)
    requires (forall x | x in s :: Succ(g, x) <= s) && Succ(g, c) == {a} && a in s && c !in s
    ensures !StrictlyReaches(g, c, c)
  {
    if StrictlyReaches(g, c, c) {
      var p :| p in Succ(g, c) && Reaches(g, p, c);
      ClosedSetAbsorbsReach(g, s, p, c);
    }
  }

  // ---- path --------------------------------------------------------------------------------------

  /** Everything seen is reached; only ids on the stack may have unseen prerequisites. */
  ghost predicate ClosureState(g: Graph, start: Id, seen: set<Id>, stack: seq<Id>)
  {
    && (forall v | v in seen :: StrictlyReaches(g, start, v) && v in Completed(g))
    && (forall v | v in stack :: v in seen || v == start)
    && (forall u | u == start || u in seen :: u in stack || Succ(g, u) <= seen)
  }

  lemma ClosureStep(g: Graph, start: Id, seen: set<Id>, stack: seq<Id>, seen': set<Id>, stack': seq<Id>)
    requires ClosureState(g, start, seen, stack) && stack != []
    requires var u := stack[|stack| - 1];
             && seen' == seen + Succ(g, u)
             && forall v :: v in stack' <==> v in stack[..|stack| - 1] || v in Succ(g, u) - seen
    ensures ClosureState(g, start, seen', stack')
  {
    var u := stack[|stack| - 1];
    assert stack == stack[..|stack| - 1] + [u];
    assert u in stack;
    forall v | v in seen' ensures StrictlyReaches(g, start, v) && v in Completed(g) {
      if v !in seen {
        StrictStep(g, start, u, v);
        assert u in g && v in g[u] && Succ(Completed(g), u) == Succ(g, u);
      }
    }
  }

  /** The ids reached from `start` by at least one edge; `start` itself only if it lies on a cycle. */
  method Closure(g: Graph, start: Id) returns (seen: set<Id>)
    ensures forall v :: v in seen <==> StrictlyReaches(g, start, v)
  {
    seen := {};
    var stack := [start];
    while stack != []
      invariant ClosureState(g, start, seen, stack)
      decreases Completed(g).Keys - seen, |stack|
    {
      var u := stack[|stack| - 1];
      var seen', stack' := PushNew(seen, stack[..|stack| - 1], Succ(g, u));
      ClosureStep(g, start, seen, stack, seen', stack');
      if !(Succ(g, u) <= seen) {
        var v :| v in Succ(g, u) && v !in seen;
        assert v in Completed(g).Keys - seen && v in seen';
      }
      seen, stack := seen', stack';
    }
    SeenIsExact(g, start, seen);
  }

  lemma SeenIsExact(g: Graph, start: Id, seen: set<Id>)
    requires ClosureState(g, start, seen, [])
    ensures forall v :: v in seen <==> StrictlyReaches(g, start, v)
  {
    forall v | StrictlyReaches(g, start, v) ensures v in seen {
      var p :| p in Succ(g, start) && Reaches(g, p, v);
      ClosedSetAbsorbsReach(g, seen, p, v);
    }
  }

  lemma StrictStep(g: Graph, start: Id, u: Id, v: Id)
    requires u == start || StrictlyReaches(g, start, u)
    requires v in Succ(g, u)
    ensures StrictlyReaches(g, start, v)
  {
    if StrictlyReaches(g, start, u) {
      var p :| p in Succ(g, start) && Reaches(g, p, u);
      ReachesStep(g, p, u, v);
    } else {
      ReachesSelf(g, v);
    }
  }

  /** Marks and pushes every id of `next` that is not yet marked. */
  method PushNew(seen: set<Id>, stack: seq<Id>, next: set<Id>) returns (seen': set<Id>, stack': seq<Id>)
    ensures seen' == seen + next
    ensures stack <= stack' && forall v :: v in stack' <==> v in stack || v in next - seen
    ensures next <= seen ==> stack' == stack
  {
    seen', stack' := seen, stack;
    var todo := next;
    while todo != {}
      invariant todo <= next && seen' == seen + (next - todo)
      invariant stack <= stack' && forall v :: v in stack' <==> v in stack || v in next - todo - seen
      invariant next <= seen ==> stack' == stack
    {
      var p :| p in todo;
      todo := todo - {p};
      if p !in seen' {
        seen' := seen' + {p};
        stack' := stack' + [p];
      }
    }
  }

  method ReverseGraph(g: Graph) returns (rev: Graph)
    ensures IsReverse(g, rev)
  {
    rev := map[];
    var todo := g.Keys;
    while todo != {}
      invariant todo <= g.Keys
      invariant forall u, v :: v in Succ(rev, u) <==> v !in todo && u in Succ(g, v)
    {
      var k :| k in todo;
      ghost var was := rev;
      rev := AddDependent(rev, g[k], k);
      todo := todo - {k};
      forall u, v ensures v in Succ(rev, u) <==> v !in todo && u in Succ(g, v) {
        assert Succ(rev, u) == Succ(was, u) + if u in g[k] then {k} else {};
        assert v in Succ(was, u) <==> v !in todo + {k} && u in Succ(g, v);
      }
    }
  }

  method AddDependent(rev: Graph, ps: set<Id>, k: Id) returns (rev': Graph)
    ensures forall u :: Succ(rev', u) == Succ(rev, u) + if u in ps then {k} else {}
  {
    rev' := rev;
    var todo := ps;
    while todo != {}
      invariant todo <= ps
      invariant forall u :: Succ(rev', u) == Succ(rev, u) + if u in ps - todo then {k} else {}
    {
      var p :| p in todo;
      todo := todo - {p};
      rev' := rev'[p := Succ(rev', p) + {k}];
    }
  }

  /** `path`: everything that must come before `id`, and everything that must come after it; None is the error exit for
      an id that is not a requirement. */
  method Path(register: Requirements, cat: Catalogue, id: Id) returns (r: Option<(set<Id>, set<Id>)>)
    requires cat.Valid()
    ensures r.Some? <==> id in Load(register)
    ensures r.Some? ==>
              var g := Prereqs(Load(register), cat, Scheduled(Load(register), true));
              && (forall v :: v in r.value.0 <==> StrictlyReaches(g, id, v))
              && (forall v :: v in r.value.1 <==> StrictlyReaches(g, v, id))
              && IsPrerequisiteGraph(Load(register), cat, true, g)
  {
    var reqs := Load(register);
    if id !in reqs { return None; }
    var _, g, _, _ := BuildGraph(reqs, cat, true);
    var before := Closure(g, id);
    var rev := ReverseGraph(g);
    var after := Closure(rev, id);
    forall v ensures v in after <==> StrictlyReaches(g, v, id) {
      if v in after { ReverseStrict(g, rev, id, v); }
      if StrictlyReaches(g, v, id) { ReverseStrict(rev, g, v, id); }
    }
    return Some((before, after));
  }

  // ---- what a release does -----------------------------------------------------------------------

  /** `after` differs from `before` only in statuses. */
  ghost predicate OnlyStatusesDiffer(before: Requirements, after: Requirements)
  {
    before.Keys == after.Keys &&
    forall k | k in before :: after[k] == before[k].(status := after[k].status)
  }

  /** Dropping built requirements leaves the graph induced on the others. */
  lemma OpenGraphIsInduced(before: Requirements, after: Requirements, cat: Catalogue, all: set<Id>, open: set<Id>)
    requires OnlyStatusesDiffer(before, after) && open <= all <= before.Keys
    ensures Prereqs(after, cat, open).Keys == open
    ensures forall k | k in open :: Prereqs(after, cat, open)[k] == Prereqs(before, cat, all)[k] * open
  {
    forall k | k in open ensures Prereqs(after, cat, open)[k] == Prereqs(before, cat, all)[k] * open {
      assert after[k].extendsRefs == before[k].extendsRefs;
      assert ExtendsEdges(after, open, k) == ExtendsEdges(before, all, k) * open;
      assert WorkflowEdges(cat, open, k) == WorkflowEdges(cat, all, k) * open;
    }
  }

  /** When requirements become RELEASED or DEPRECATED, no other requirement moves to a later wave or drops out. */
  lemma ReleaseNeverDelays(before: Requirements, after: Requirements, cat: Catalogue, k: Id, n: nat)
    requires OnlyStatusesDiffer(before, after) && Scheduled(Load(after), false) <= Scheduled(Load(before), false)
    requires InWave(OpenGraph(before, cat), k, n) && k in Scheduled(Load(after), false)
    ensures exists m: nat :: m <= n && InWave(OpenGraph(after, cat), k, m)
  {
    OpenGraphIsInduced(Load(before), Load(after), cat, Scheduled(Load(before), false), Scheduled(Load(after), false));
    RestrictionNeverDelays(OpenGraph(before, cat), OpenGraph(after, cat), n);
    var m := WaveOf(OpenGraph(after, cat), k, n);
  }
}
