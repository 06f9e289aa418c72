/** The requirement scheduler: prerequisite graph, cycle search, waves, transitive closures. */
module Depsort {
  import opened Graphs
  import opened Orders
  import opened Registry

  /** `load`: the scheduler sees the entries of type requirement, and no others. */
  function Load(register: Requirements): Requirements
  {
    map k | k in register && register[k].kind == RequirementEntry :: register[k]
  }

  predicate Done(status: string) { status == "RELEASED" || status == "DEPRECATED" }

  function Scheduled(reqs: Requirements, includeDone: bool): set<Id>
  {
    set k | k in reqs && (includeDone || !Done(reqs[k].status))
  }

  /** The workflow that claims `rid`: the last one in catalogue order that lists it. */
  function Owner(order: seq<Id>, byId: map<Id, Workflow>, rid: Id): Option<Id>
  {
    if order == [] then None else
    var wid := order[|order| - 1];
    if wid in byId && rid in byId[wid].requirements then Some(wid) else Owner(order[..|order| - 1], byId, rid)
  }

  function ExtendsEdges(reqs: Requirements, scheduled: set<Id>, k: Id): set<Id>
    requires k in reqs
  {
    set r | r in reqs[k].extendsRefs && r != k && r in scheduled && r in reqs
  }

  /** Every scheduled requirement of every workflow that the owner of `k` depends on. */
  function WorkflowEdges(cat: Catalogue, scheduled: set<Id>, k: Id): set<Id>
  {
    match Owner(cat.order, cat.byId, k)
    case None => {}
    case Some(w) =>
      set m | m in scheduled && Owner(cat.order, cat.byId, m).Some? && w in cat.byId &&
              Owner(cat.order, cat.byId, m).value in cat.byId[w].dependsOn
  }

  /** The graph of prerequisites that `BuildGraph` computes. */
  function Prereqs(reqs: Requirements, cat: Catalogue, scheduled: set<Id>): Graph
    requires scheduled <= reqs.Keys
  {
    map k | k in scheduled :: (ExtendsEdges(reqs, scheduled, k) + WorkflowEdges(cat, scheduled, k)) - {k}
  }

  /** The graph of open requirements that the scheduler draws from the register. */
  function OpenGraph(register: Requirements, cat: Catalogue): Graph
  {
    Prereqs(Load(register), cat, Scheduled(Load(register), false))
  }

  predicate NonFunctional(ref: Id) { "NFR-" <= ref.name || "FNFR-" <= ref.name }

  function DanglingRefs(reqs: Requirements, k: Id): set<Id>
    requires k in reqs
  {
    set r | r in reqs[k].extendsRefs && r != k && r !in reqs && !NonFunctional(r)
  }

  function Get(m: Graph, k: Id): set<Id> { if k in m then m[k] else {} }

  /** The Extends and See lines of one requirement. */
  method ReadReferences(reqs: Requirements, scheduled: set<Id>, k: Id)
    returns (edges: set<Id>, advisory: set<Id>, dangling: set<Id>)
    requires k in reqs
    ensures edges == ExtendsEdges(reqs, scheduled, k)
    ensures advisory == AdvisoryRefs(reqs, scheduled, k)
    ensures dangling == DanglingRefs(reqs, k)
  {
    edges, advisory, dangling := {}, {}, {};
    var refs := reqs[k].extendsRefs;
    while refs != {}
      invariant refs <= reqs[k].extendsRefs
      invariant edges == ExtendsEdges(reqs, scheduled, k) - refs
      invariant dangling == DanglingRefs(reqs, k) - refs
    {
      var ref :| ref in refs;
      refs := refs - {ref};
      if ref == k { continue; }
      if ref !in reqs {
        if !NonFunctional(ref) { dangling := dangling + {ref}; }
        continue;
      }
      if ref in scheduled { edges := edges + {ref}; }
    }
    refs := reqs[k].seeRefs;
    while refs != {}
      invariant refs <= reqs[k].seeRefs
      invariant advisory == AdvisoryRefs(reqs, scheduled, k) - refs
    {
      var ref :| ref in refs;
      refs := refs - {ref};
      if ref != k && ref in reqs && ref in scheduled { advisory := advisory + {ref}; }
    }
  }

  ghost predicate IndexesOwners(cat: Catalogue, wfOf: map<Id, Id>)
  {
    forall r :: Owner(cat.order, cat.byId, r) == if r in wfOf then Some(wfOf[r]) else None
  }

  ghost predicate IndexesPrefix(cat: Catalogue, i: nat, wfOf: map<Id, Id>)
    requires i <= |cat.order|
  {
    forall r :: Owner(cat.order[..i], cat.byId, r) == if r in wfOf then Some(wfOf[r]) else None
  }

  /** Maps every claimed requirement to the workflow that claims it, later workflows overriding earlier ones. */
  method IndexOwners(cat: Catalogue) returns (wfOf: map<Id, Id>)
    requires cat.Valid()
    ensures IndexesOwners(cat, wfOf)
  {
    wfOf := map[];
    for i := 0 to |cat.order|
      invariant IndexesPrefix(cat, i, wfOf)
    {
      ghost var before := wfOf;
      wfOf := Claim(wfOf, cat.order[i], cat.byId[cat.order[i]].requirements);
      ClaimExtendsIndex(cat, i, before, wfOf);
    }
    assert cat.order[..|cat.order|] == cat.order;
  }

  function Claimed(wfOf: map<Id, Id>, wid: Id, ids: seq<Id>): map<Id, Id>
  {
    wfOf + map r | r in ids :: wid
  }

  method Claim(wfOf: map<Id, Id>, wid: Id, ids: seq<Id>) returns (claimed: map<Id, Id>)
    ensures claimed == Claimed(wfOf, wid, ids)
  {
    claimed := wfOf;
    for j := 0 to |ids|
      invariant claimed == Claimed(wfOf, wid, ids[..j])
    {
      ClaimOne(wfOf, wid, ids, j);
      claimed := claimed[ids[j] := wid];
    }
    assert ids[..|ids|] == ids;
  }

  lemma ClaimOne(wfOf: map<Id, Id>, wid: Id, ids: seq<Id>, j: nat)
    requires j < |ids|
    ensures Claimed(wfOf, wid, ids[..j])[ids[j] := wid] == Claimed(wfOf, wid, ids[..j + 1])
  {
    assert ids[..j + 1] == ids[..j] + [ids[j]];
  }

  lemma ClaimExtendsIndex(cat: Catalogue, i: nat, before: map<Id, Id>, after: map<Id, Id>)
    requires cat.Valid() && i < |cat.order| && IndexesPrefix(cat, i, before)
    requires after == Claimed(before, cat.order[i], cat.byId[cat.order[i]].requirements)
    ensures IndexesPrefix(cat, i + 1, after)
  {
    assert cat.order[..i + 1][..i] == cat.order[..i];
    forall r ensures Owner(cat.order[..i + 1], cat.byId, r) == if r in after then Some(after[r]) else None {
      assert Owner(cat.order[..i], cat.byId, r) == if r in before then Some(before[r]) else None;
    }
  }

  /** The scheduled requirements claimed by `w`. */
  function MembersOf(wfOf: map<Id, Id>, scheduled: set<Id>, w: Id): set<Id>
  {
    set m | m in scheduled && m in wfOf && wfOf[m] == w
  }

  method GroupMembers(wfOf: map<Id, Id>, scheduled: set<Id>) returns (members: Graph)
    ensures forall w :: Get(members, w) == MembersOf(wfOf, scheduled, w)
  {
    members := map[];
    var todo := wfOf.Keys;
    while todo != {}
      invariant todo <= wfOf.Keys
      invariant forall w :: Get(members, w) == MembersOf(wfOf, scheduled, w) - todo
    {
      var rid :| rid in todo;
      todo := todo - {rid};
      if rid in scheduled { members := members[wfOf[rid] := Get(members, wfOf[rid]) + {rid}]; }
    }
  }

  /** What the dependencies `deps` of one workflow contribute to each of its members. */
  function EdgesFrom(wfOf: map<Id, Id>, scheduled: set<Id>, deps: seq<Id>): set<Id>
  {
    set m | m in scheduled && m in wfOf && wfOf[m] in deps
  }

  /** `prereqs[target] |= added` for every target. */
  method AddToAll(prereqs: Graph, targets: set<Id>, added: set<Id>) returns (linked: Graph)
    requires targets <= prereqs.Keys
    ensures linked == map k | k in prereqs :: prereqs[k] + if k in targets then added else {}
  {
    linked := prereqs;
    var todo := targets;
    while todo != {}
      invariant todo <= targets && linked.Keys == prereqs.Keys
      invariant forall k | k in prereqs :: linked[k] == prereqs[k] + if k in targets - todo then added else {}
    {
      var target :| target in todo;
      todo := todo - {target};
      linked := linked[target := linked[target] + added];
    }
  }

  /** Adds to every member of `wid` every member of the workflows `wid` depends on. */
  method LinkWorkflow(prereqs: Graph, wfOf: map<Id, Id>, members: Graph, wid: Id, deps: seq<Id>) returns (linked: Graph)
    requires forall w :: Get(members, w) == MembersOf(wfOf, prereqs.Keys, w)
    ensures linked.Keys == prereqs.Keys
    ensures forall k | k in prereqs :: linked[k] ==
              prereqs[k] + if k in wfOf && wfOf[k] == wid then EdgesFrom(wfOf, prereqs.Keys, deps) else {}
  {
    linked := prereqs;
    var targets := Get(members, wid);
    assert targets == MembersOf(wfOf, prereqs.Keys, wid);
    for j := 0 to |deps|
      invariant linked.Keys == prereqs.Keys
      invariant forall k | k in prereqs :: linked[k] ==
                  prereqs[k] + if k in targets then EdgesFrom(wfOf, prereqs.Keys, deps[..j]) else {}
    {
      var added := Get(members, deps[j]);
      assert EdgesFrom(wfOf, prereqs.Keys, deps[..j + 1]) == EdgesFrom(wfOf, prereqs.Keys, deps[..j]) + added;
      linked := AddToAll(linked, targets, added);
    }
    assert deps[..|deps|] == deps;
  }

  function AdvisoryRefs(reqs: Requirements, scheduled: set<Id>, k: Id): set<Id>
    requires k in reqs
  {
    set r | r in reqs[k].seeRefs && r != k && r in reqs && r in scheduled
  }

  function BodyEdges(reqs: Requirements, scheduled: set<Id>): (g: Graph)
    requires scheduled <= reqs.Keys
    ensures g.Keys == scheduled
  {
    map k | k in scheduled :: ExtendsEdges(reqs, scheduled, k)
  }

  function Related(reqs: Requirements, scheduled: set<Id>): Graph
    requires scheduled <= reqs.Keys
  {
    map k | k in scheduled :: AdvisoryRefs(reqs, scheduled, k)
  }

  ghost predicate IsDangling(reqs: Requirements, scheduled: set<Id>, dangling: Graph)
    requires scheduled <= reqs.Keys
  {
    forall k :: Get(dangling, k) == if k in scheduled then DanglingRefs(reqs, k) else {}
  }

  /** The first pass of `build_graph`, over the bodies. */
  method ReadBodies(reqs: Requirements, scheduled: set<Id>) returns (prereqs: Graph, advisory: Graph, dangling: Graph)
    requires scheduled <= reqs.Keys
    ensures prereqs == BodyEdges(reqs, scheduled)
    ensures advisory == Related(reqs, scheduled)
    ensures IsDangling(reqs, scheduled, dangling)
  {
    prereqs, advisory, dangling := map[], map[], map[];
    var todo := scheduled;
    while todo != {}
      invariant todo <= scheduled && IsDangling(reqs, scheduled - todo, dangling)
      invariant prereqs.Keys == advisory.Keys == scheduled - todo
      invariant forall k | k in prereqs :: prereqs[k] == ExtendsEdges(reqs, scheduled, k)
      invariant forall k | k in advisory :: advisory[k] == AdvisoryRefs(reqs, scheduled, k)
    {
      var k :| k in todo;
      var e, a, d := ReadReferences(reqs, scheduled, k);
      AddDangling(reqs, scheduled - todo, dangling, k);
      todo := todo - {k};
      assert scheduled - todo == scheduled - (todo + {k}) + {k};
      prereqs, advisory := prereqs[k := e], advisory[k := a];
      if d != {} { dangling := dangling[k := d]; }
    }
  }

  lemma AddDangling(reqs: Requirements, done: set<Id>, dangling: Graph, k: Id)
    requires done <= reqs.Keys && IsDangling(reqs, done, dangling) && k in reqs && k !in done
    ensures IsDangling(reqs, done + {k}, dangling[k := DanglingRefs(reqs, k)])
    ensures DanglingRefs(reqs, k) == {} ==> IsDangling(reqs, done + {k}, dangling)
  {
    forall x ensures Get(dangling, x) == if x in done then DanglingRefs(reqs, x) else {} {}
  }

  /** The first `i` workflows have contributed their edges. */
  ghost predicate LinkedUpTo(cat: Catalogue, wfOf: map<Id, Id>, bodies: Graph, linked: Graph, i: int)
    requires 0 <= i <= |cat.order| && cat.Valid()
  {
    linked.Keys == bodies.Keys &&
    forall k | k in bodies :: linked[k] == bodies[k] +
      if k in wfOf && wfOf[k] in cat.order[..i] then OwnedEdges(cat, wfOf, bodies.Keys, k) else {}
  }

  lemma OneMoreLinked(cat: Catalogue, wfOf: map<Id, Id>, bodies: Graph, before: Graph, after: Graph, i: nat)
    requires cat.Valid() && i < |cat.order| && LinkedUpTo(cat, wfOf, bodies, before, i)
    requires after.Keys == before.Keys
    requires var wid := cat.order[i];
             forall k | k in before :: after[k] == before[k] + if k in wfOf && wfOf[k] == wid
               then EdgesFrom(wfOf, before.Keys, cat.byId[wid].dependsOn) else {}
    ensures LinkedUpTo(cat, wfOf, bodies, after, i + 1)
    ensures i + 1 == |cat.order| ==> LinkedFrom(cat, wfOf, bodies, after)
  {
    assert cat.order[..i + 1] == cat.order[..i] + [cat.order[i]];
    if i + 1 == |cat.order| { assert cat.order[..i + 1] == cat.order; }
  }

  /** The second pass of `build_graph`, over the workflow dependencies. */
  method LinkWorkflows(cat: Catalogue, wfOf: map<Id, Id>, bodies: Graph) returns (prereqs: Graph)
    requires cat.Valid()
    ensures LinkedFrom(cat, wfOf, bodies, prereqs)
  {
    var members := GroupMembers(wfOf, bodies.Keys);
    prereqs := bodies;
    for i := 0 to |cat.order|
      invariant LinkedUpTo(cat, wfOf, bodies, prereqs, i)
    {
      var wid := cat.order[i];
      ghost var before := prereqs;
      prereqs := LinkWorkflow(prereqs, wfOf, members, wid, cat.byId[wid].dependsOn);
      OneMoreLinked(cat, wfOf, bodies, before, prereqs, i);
    }
  }

  ghost predicate LinkedFrom(cat: Catalogue, wfOf: map<Id, Id>, bodies: Graph, linked: Graph)
  {
    linked.Keys == bodies.Keys &&
    forall k | k in bodies :: linked[k] == bodies[k] + OwnedEdges(cat, wfOf, bodies.Keys, k)
  }

  function OwnedEdges(cat: Catalogue, wfOf: map<Id, Id>, scheduled: set<Id>, k: Id): set<Id>
  {
    if k in wfOf && wfOf[k] in cat.byId then EdgesFrom(wfOf, scheduled, cat.byId[wfOf[k]].dependsOn) else {}
  }

  lemma LinkedIsPrereqs(reqs: Requirements, cat: Catalogue, wfOf: map<Id, Id>, bodies: Graph, linked: Graph)
    requires bodies.Keys <= reqs.Keys
    requires bodies == BodyEdges(reqs, bodies.Keys)
    requires IndexesOwners(cat, wfOf) && LinkedFrom(cat, wfOf, bodies, linked)
    ensures (map k | k in bodies.Keys :: linked[k] - {k}) == Prereqs(reqs, cat, bodies.Keys)
  {
    forall k | k in bodies
      ensures linked[k] == ExtendsEdges(reqs, bodies.Keys, k) + WorkflowEdges(cat, bodies.Keys, k)
    {
    }
  }

  // ---- what is promised, in terms of the register and the catalogue ----------------------------------------

  /** The requirement is to be built: all are if `all` says so, otherwise those neither released nor deprecated. */
  ghost predicate ToBuild(reqs: Requirements, all: bool, k: Id)
  {
    k in reqs && (all || (reqs[k].status != "RELEASED" && reqs[k].status != "DEPRECATED"))
  }

  ghost predicate ListedIn(cat: Catalogue, i: nat, k: Id)
    requires i < |cat.order|
  {
    cat.order[i] in cat.byId && k in cat.byId[cat.order[i]].requirements
  }

  /** `w` is the last workflow in the catalogue that lists the requirement. */
  ghost predicate BelongsTo(cat: Catalogue, k: Id, w: Id)
  {
    exists i: nat :: i < |cat.order| && cat.order[i] == w && LastListing(cat, i, k)
  }

  ghost predicate LastListing(cat: Catalogue, i: nat, k: Id)
    requires i < |cat.order|
  {
    ListedIn(cat, i, k) && forall j | i < j < |cat.order| :: !ListedIn(cat, j, k)
  }

  /** `p` has to be built before `k`: `k` extends it, or its workflow is one that the workflow of `k` depends on. */
  ghost predicate ComesFirst(reqs: Requirements, cat: Catalogue, all: bool, k: Id, p: Id)
  {
    && ToBuild(reqs, all, k) && ToBuild(reqs, all, p) && p != k
    && (p in reqs[k].extendsRefs || ByWorkflow(cat, k, p))
  }

  ghost predicate ByWorkflow(cat: Catalogue, k: Id, p: Id)
  {
    exists w, v :: BelongsTo(cat, k, w) && BelongsTo(cat, p, v) && w in cat.byId && v in cat.byId[w].dependsOn
  }

  /** `k` extends something that is not in the register, and is not a non-functional requirement either. */
  ghost predicate Dangles(reqs: Requirements, k: Id, r: Id)
  {
    k in reqs && r in reqs[k].extendsRefs && r != k && r !in reqs && !("NFR-" <= r.name) && !("FNFR-" <= r.name)
  }

  lemma {:induction false} OwnerMeaning(cat: Catalogue, n: nat, k: Id)
    requires n <= |cat.order|
    ensures Owner(cat.order[..n], cat.byId, k).None? <==> forall i | 0 <= i < n :: !ListedIn(cat, i, k)
    ensures forall i | 0 <= i < n && ListedIn(cat, i, k) && (forall j | i < j < n :: !ListedIn(cat, j, k)) ::
              Owner(cat.order[..n], cat.byId, k) == Some(cat.order[i])
  {
    if n > 0 {
      OwnerMeaning(cat, n - 1, k);
      OwnerStep(cat, n, k);
    }
  }

  lemma OwnerStep(cat: Catalogue, n: nat, k: Id)
    requires 0 < n <= |cat.order|
    ensures Owner(cat.order[..n], cat.byId, k) ==
            if ListedIn(cat, n - 1, k) then Some(cat.order[n - 1]) else Owner(cat.order[..n - 1], cat.byId, k)
  {
    assert cat.order[..n][..n - 1] == cat.order[..n - 1] && cat.order[..n][n - 1] == cat.order[n - 1];
  }

  lemma {:induction false} OwnerIsLast(cat: Catalogue, n: nat, k: Id) returns (i: nat)
    requires n <= |cat.order| && Owner(cat.order[..n], cat.byId, k).Some?
    ensures i < n && cat.order[i] == Owner(cat.order[..n], cat.byId, k).value && ListedIn(cat, i, k)
    ensures forall j | i < j < n :: !ListedIn(cat, j, k)
  {
    OwnerStep(cat, n, k);
    if ListedIn(cat, n - 1, k) { return n - 1; }
    i := OwnerIsLast(cat, n - 1, k);
  }

  lemma BelongsMeaning(cat: Catalogue, k: Id, w: Id)
    ensures BelongsTo(cat, k, w) <==> Owner(cat.order, cat.byId, k) == Some(w)
  {
    assert cat.order[..|cat.order|] == cat.order;
    OwnerMeaning(cat, |cat.order|, k);
    if Owner(cat.order, cat.byId, k).Some? {
      var i := OwnerIsLast(cat, |cat.order|, k);
      assert LastListing(cat, i, k);
    }
  }

  lemma ScheduledMeaning(reqs: Requirements, all: bool, k: Id)
    ensures k in Scheduled(reqs, all) <==> ToBuild(reqs, all, k)
  {
  }

  lemma WorkflowMeaning(cat: Catalogue, scheduled: set<Id>, k: Id, p: Id)
    ensures p in WorkflowEdges(cat, scheduled, k) <==> p in scheduled && ByWorkflow(cat, k, p)
  {
    forall x, w ensures BelongsTo(cat, x, w) <==> Owner(cat.order, cat.byId, x) == Some(w) {
      BelongsMeaning(cat, x, w);
    }
  }

  /** The edges of the graph are exactly what has to come first. */
  lemma EdgesMeaning(reqs: Requirements, cat: Catalogue, all: bool, k: Id, p: Id)
    ensures var g := Prereqs(reqs, cat, Scheduled(reqs, all));
            (k in g <==> ToBuild(reqs, all, k)) && (k in g && p in g[k] <==> ComesFirst(reqs, cat, all, k, p))
  {
    ScheduledMeaning(reqs, all, k);
    ScheduledMeaning(reqs, all, p);
    WorkflowMeaning(cat, Scheduled(reqs, all), k, p);
  }

  /** The graph of prerequisites is what it should be. */
  ghost predicate IsPrerequisiteGraph(reqs: Requirements, cat: Catalogue, all: bool, g: Graph)
  {
    && (forall k :: k in g <==> ToBuild(reqs, all, k))
    && forall k, p | k in g :: p in g[k] <==> ComesFirst(reqs, cat, all, k, p)
  }

  lemma GraphMeaning(reqs: Requirements, cat: Catalogue, all: bool)
    ensures IsPrerequisiteGraph(reqs, cat, all, Prereqs(reqs, cat, Scheduled(reqs, all)))
  {
    forall k, p
      ensures var g := Prereqs(reqs, cat, Scheduled(reqs, all));
              (k in g <==> ToBuild(reqs, all, k)) && (k in g && p in g[k] <==> ComesFirst(reqs, cat, all, k, p))
    {
      EdgesMeaning(reqs, cat, all, k, p);
    }
  }

  /** The scheduler draws its graph from the entries of type requirement. */
  lemma LoadMeaning(register: Requirements)
    ensures forall k :: k in Load(register) <==> k in register && register[k].kind == RequirementEntry
    ensures forall k | k in Load(register) :: Load(register)[k] == register[k]
  {
  }

  /** `build_graph`: the scheduled ids, their prerequisites, related ids, and references to unknown ids. */
  method BuildGraph(reqs: Requirements, cat: Catalogue, includeDone: bool)
    returns (scheduled: set<Id>, prereqs: Graph, advisory: Graph, dangling: Graph)
    requires cat.Valid()
    ensures scheduled == Scheduled(reqs, includeDone)
    ensures prereqs == Prereqs(reqs, cat, scheduled) && Closed(prereqs)
    ensures advisory == Related(reqs, scheduled)
    ensures IsDangling(reqs, scheduled, dangling)
    ensures forall k :: k in scheduled <==> ToBuild(reqs, includeDone, k)
    ensures IsPrerequisiteGraph(reqs, cat, includeDone, prereqs)
    ensures forall k, r :: r in Get(dangling, k) <==> ToBuild(reqs, includeDone, k) && Dangles(reqs, k, r)
    ensures forall k, r | k in scheduled ::
              r in advisory[k] <==> r in reqs[k].seeRefs && r != k && ToBuild(reqs, includeDone, r)
  {
    GraphMeaning(reqs, cat, includeDone);
    scheduled := Scheduled(reqs, includeDone);
    var bodies;
    bodies, advisory, dangling := ReadBodies(reqs, scheduled);
    var wfOf := IndexOwners(cat);
    var linked := LinkWorkflows(cat, wfOf, bodies);
    LinkedIsPrereqs(reqs, cat, wfOf, bodies, linked);
    prereqs := map k | k in scheduled :: linked[k] - {k};
    GraphIsClosed(reqs, cat, scheduled);
  }

  lemma {:induction false} OwnerListed(order: seq<Id>, byId: map<Id, Workflow>, rid: Id)
    ensures Owner(order, byId, rid).Some? ==>
              Owner(order, byId, rid).value in order && Owner(order, byId, rid).value in byId &&
              rid in byId[Owner(order, byId, rid).value].requirements
  {
    if order != [] { OwnerListed(order[..|order| - 1], byId, rid); }
  }

  /** Every prerequisite is itself scheduled, and nothing is its own prerequisite. */
  lemma GraphIsClosed(reqs: Requirements, cat: Catalogue, scheduled: set<Id>)
    requires scheduled <= reqs.Keys
    ensures Closed(Prereqs(reqs, cat, scheduled))
    ensures forall k | k in scheduled :: k !in Prereqs(reqs, cat, scheduled)[k]
  {
  }

  // ---- find_cycles -----------------------------------------------------------------------------

  const WHITE := 0
  const GREY := 1
  const BLACK := 2

  function Colour(colour: map<Id, int>, u: Id): int { if u in colour then colour[u] else WHITE }

  /** The finding `c` was closed by the edge from `u` to `v`. */
  predicate ClosedBy(c: seq<Id>, u: Id, v: Id) { |c| >= 2 && c[|c| - 2] == u && c[|c| - 1] == v }

  ghost predicate Closing(found: seq<seq<Id>>, u: Id, v: Id) { exists c :: c in found && ClosedBy(c, u, v) }

  /** Where the closing edge of a finding starts. */
  function Source(c: seq<Id>): Id
    requires |c| >= 2
  {
    c[|c| - 2]
  }

  /** No two findings have one closing edge, and all closing edges start at ids in `coloured`. */
  ghost predicate OneEach(found: seq<seq<Id>>, coloured: set<Id>)
  {
    && (forall i | 0 <= i < |found| :: |found[i]| >= 2 && Source(found[i]) in coloured)
    && forall i, j | 0 <= i < j < |found| :: !ClosedBy(found[j], found[i][|found[i]| - 2], found[i][|found[i]| - 1])
  }

  /** The findings since `before` are closed by edges from ids outside `coloured`. */
  ghost predicate FromOutside(before: seq<seq<Id>>, found: seq<seq<Id>>, coloured: set<Id>)
  {
    before <= found && forall k | |before| <= k < |found| :: |found[k]| >= 2 && Source(found[k]) !in coloured
  }

  /** The closing edges from `u` lead to the first `n` ids listed. */
  ghost predicate ClosedWithin(found: seq<seq<Id>>, u: Id, ids: seq<Id>, n: int)
    requires n <= |ids|
  {
    forall v | Closing(found, u, v) :: exists i :: 0 <= i < n && ids[i] == v
  }

  lemma WithinStays(found: seq<seq<Id>>, found': seq<seq<Id>>, coloured: set<Id>, u: Id, ids: seq<Id>, n: nat)
    requires n < |ids| && ClosedWithin(found, u, ids, n) && FromOutside(found, found', coloured) && u in coloured
    ensures ClosedWithin(found', u, ids, n + 1)
  {
    forall v | Closing(found', u, v) ensures exists i :: 0 <= i < n + 1 && ids[i] == v {
      var c :| c in found' && ClosedBy(c, u, v);
      var k :| 0 <= k < |found'| && found'[k] == c;
      if k < |found| {
        assert c in found;
        assert Closing(found, u, v);
      }
    }
  }

  lemma WithinAdded(found: seq<seq<Id>>, c: seq<Id>, u: Id, ids: seq<Id>, n: nat)
    requires n < |ids| && ClosedWithin(found, u, ids, n) && ClosedBy(c, u, ids[n])
    ensures ClosedWithin(found + [c], u, ids, n + 1)
  {
    forall v | Closing(found + [c], u, v) ensures exists i :: 0 <= i < n + 1 && ids[i] == v {
      var d :| d in found + [c] && ClosedBy(d, u, v);
      if d in found { assert Closing(found, u, v); }
    }
  }

  lemma NothingFromWhite(found: seq<seq<Id>>, coloured: set<Id>, u: Id, ids: seq<Id>)
    requires OneEach(found, coloured) && u !in coloured
    ensures ClosedWithin(found, u, ids, 0)
  {
  }

  lemma OneMoreFinding(found: seq<seq<Id>>, c: seq<Id>, coloured: set<Id>, u: Id, v: Id)
    requires OneEach(found, coloured) && ClosedBy(c, u, v) && u in coloured && !Closing(found, u, v)
    ensures OneEach(found + [c], coloured)
  {
    forall i | 0 <= i < |found| ensures !ClosedBy(c, found[i][|found[i]| - 2], found[i][|found[i]| - 1]) {
      assert found[i] in found;
    }
  }

  /** The edge from `u` to `v` leads to an id that is finished, or closes a finding. */
  ghost predicate Settled(found: seq<seq<Id>>, done: seq<Id>, u: Id, v: Id) { v in done || Closing(found, u, v) }

  /** The prerequisites of the `i`-th id to be finished were finished before it, but for edges that close findings. */
  ghost predicate FinishedAt(g: Graph, found: seq<seq<Id>>, done: seq<Id>, i: nat)
    requires i < |done|
  {
    forall v | v in Succ(g, done[i]) :: Settled(found, done[..i], done[i], v)
  }

  /** Grey ids are exactly the stack, which is a walk without repeats; black ids are exactly those finished; every
      finding is a simple cycle. */
  ghost predicate SearchState(g: Graph, all: set<Id>, colour: map<Id, int>, found: seq<seq<Id>>, stack: seq<Id>,
                              done: seq<Id>)
  {
    && (forall u :: u in stack <==> u in colour && colour[u] == GREY)
    && (forall u :: u in done <==> u in colour && colour[u] == BLACK)
    && (forall i, j | 0 <= i < j < |stack| :: stack[i] != stack[j])
    && (forall i | 0 <= i < |stack| - 1 :: stack[i + 1] in Succ(g, stack[i]))
    && (forall c | c in found :: SimpleCycle(g, c)) && OneEach(found, colour.Keys)
    && (forall u | u in colour :: u in all && (colour[u] == GREY || colour[u] == BLACK))
    && (forall i: nat | i < |done| :: FinishedAt(g, found, done, i))
  }

  /** Coloured ids keep their colour. */
  ghost predicate Keeps(before: map<Id, int>, after: map<Id, int>)
  {
    forall u | u in before :: u in after && after[u] == before[u]
  }

  /** The first `n` prerequisites listed are settled. */
  ghost predicate Explored(found: seq<seq<Id>>, done: seq<Id>, u: Id, ids: seq<Id>, n: int)
    requires n <= |ids|
  {
    forall i | 0 <= i < n :: Settled(found, done, u, ids[i])
  }

  lemma OneMoreSettled(found: seq<seq<Id>>, done: seq<Id>, found': seq<seq<Id>>, done': seq<Id>, u: Id, ids: seq<Id>,
                       n: nat)
    requires n < |ids| && found <= found' && done <= done'
    requires Explored(found, done, u, ids, n) && Settled(found', done', u, ids[n])
    ensures Explored(found', done', u, ids, n + 1)
  {
    forall i | 0 <= i < n ensures Settled(found', done', u, ids[i]) {
      SettledStays(found, done, found', done', u, ids[i]);
    }
  }

  lemma SettledStays(found: seq<seq<Id>>, done: seq<Id>, found': seq<seq<Id>>, done': seq<Id>, u: Id, v: Id)
    requires found <= found' && done <= done' && Settled(found, done, u, v)
    ensures Settled(found', done', u, v)
  {
    if c :| c in found && ClosedBy(c, u, v) { assert c in found'; }
  }

  /** What was finished stays finished when more is found. */
  lemma FinishedStays(g: Graph, found: seq<seq<Id>>, found': seq<seq<Id>>, done: seq<Id>, done': seq<Id>, i: nat)
    requires found <= found' && done <= done' && i < |done| && FinishedAt(g, found, done, i)
    ensures FinishedAt(g, found', done', i)
  {
    assert done'[..i] == done[..i] && done'[i] == done[i];
    forall v | v in Succ(g, done[i]) ensures Settled(found', done[..i], done[i], v) {
      SettledStays(found, done[..i], found', done[..i], done[i], v);
    }
  }

  /** Finding one more cycle, closed by an edge from the top of the stack, keeps the state. */
  lemma FindingKeeps(g: Graph, all: set<Id>, colour: map<Id, int>, found: seq<seq<Id>>, stack: seq<Id>, done: seq<Id>,
                     c: seq<Id>, v: Id)
    requires SearchState(g, all, colour, found, stack, done) && stack != [] && SimpleCycle(g, c)
    requires ClosedBy(c, stack[|stack| - 1], v) && !Closing(found, stack[|stack| - 1], v)
    ensures SearchState(g, all, colour, found + [c], stack, done) && Closing(found + [c], stack[|stack| - 1], v)
  {
    assert stack[|stack| - 1] in stack;
    OneMoreFinding(found, c, colour.Keys, stack[|stack| - 1], v);
    forall i: nat | i < |done| ensures FinishedAt(g, found + [c], done, i) {
      FinishedStays(g, found, found + [c], done, done, i);
    }
    assert (found + [c])[|found|] in found + [c];
  }

  /** The three-colour depth-first search; `colour`, `found` and `stack` are the closure's shared variables, and `done`
      lists the ids in the order in which they turn black. */
  class CycleFinder {
    const g: Graph
    ghost const all: set<Id>
    var colour: map<Id, int>
    var found: seq<seq<Id>>
    var stack: seq<Id>
    ghost var done: seq<Id>

    constructor (g: Graph)
      ensures this.g == g && all == Completed(g).Keys
      ensures Valid() && colour == map[] && found == [] && stack == [] && done == []
    {
      this.g := g;
      all := Completed(g).Keys;
      colour := map[];
      found := [];
      stack := [];
      done := [];
      new;
      assert forall u :: Succ(Completed(g), u) == Succ(g, u);
    }

    ghost predicate Valid()
      reads this
    {
      (forall u | u in all :: Succ(g, u) <= all) && SearchState(g, all, colour, found, stack, done)
    }

    /** Colours `u` grey and pushes it. */
    method Enter(u: Id)
      requires Valid() && u in all && u !in colour
      requires stack != [] ==> u in Succ(g, stack[|stack| - 1])
      modifies `colour, `stack
      ensures Valid() && stack == old(stack) + [u] && colour == old(colour)[u := GREY]
    {
      colour := colour[u := GREY];
      stack := stack + [u];
    }

    /** Records the cycle that a back edge to the grey id `v` closes. */
    method Report(v: Id)
      requires Valid() && stack != [] && v in Succ(g, stack[|stack| - 1]) && v in stack
      requires !Closing(found, stack[|stack| - 1], v)
      modifies `found
      ensures Valid() && Closing(found, stack[|stack| - 1], v)
      ensures exists c :: ClosedBy(c, stack[|stack| - 1], v) && found == old(found) + [c]
    {
      var k :| 0 <= k < |stack| && stack[k] == v;
      BackEdgeClosesCycle(g, stack, k, v);
      ghost var c := stack[k..] + [v];
      assert ClosedBy(c, stack[|stack| - 1], v);
      FindingKeeps(g, all, colour, found, stack, done, c, v);
      found := found + [stack[k..] + [v]];
    }

    /** Pops `u` and colours it black, once all its prerequisites are settled. */
    method Leave(u: Id)
      requires Valid() && u in all && stack != [] && stack[|stack| - 1] == u
      requires forall v | v in Succ(g, u) :: Settled(found, done, u, v)
      modifies `colour, `stack, `done
      ensures Valid() && stack == old(stack)[..|old(stack)| - 1] && colour == old(colour)[u := BLACK]
      ensures done == old(done) + [u]
    {
      ghost var before := done;
      stack := stack[..|stack| - 1];
      colour := colour[u := BLACK];
      done := done + [u];
      forall i: nat | i < |done| ensures FinishedAt(g, found, done, i) {
        if i < |before| { FinishedStays(g, found, found, before, done, i); } else { assert done[..i] == before; }
      }
    }

    method Visit(u: Id)
      requires Valid() && u in all && u !in colour
      requires stack != [] ==> u in Succ(g, stack[|stack| - 1])
      modifies this
      ensures Valid() && stack == old(stack) && Keeps(old(colour), colour) && Colour(colour, u) == BLACK
      ensures old(done) <= done && FromOutside(old(found), found, old(colour.Keys))
      decreases all - colour.Keys, 1
    {
      Descend(u);
      Leave(u);
    }

    /** The visit of `u` up to where it leaves. */
    method Descend(u: Id)
      requires Valid() && u in all && u !in colour
      requires stack != [] ==> u in Succ(g, stack[|stack| - 1])
      modifies this
      ensures Valid() && stack == old(stack) + [u] && Keeps(old(colour), colour)
      ensures old(done) <= done && FromOutside(old(found), found, old(colour.Keys))
      ensures forall v | v in Succ(g, u) :: Settled(found, done, u, v)
      decreases all - colour.Keys, 0
    {
      NothingFromWhite(found, colour.Keys, u, []);
      Enter(u);
      assert u in all - old(colour.Keys) && u !in all - colour.Keys;
      Explore(u);
    }

    /** The case split on the colour of one prerequisite of `u`, the `n`-th of `next`. */
    method Inspect(u: Id, next: seq<Id>, n: nat, ghost start: map<Id, int>)
      requires Valid() && n < |next| && next[n] in all && stack != [] && stack[|stack| - 1] == u
      requires next[n] in Succ(g, u) && Keeps(start, colour) && Explored(found, done, u, next, n)
      requires ClosedWithin(found, u, next, n) && forall i | 0 <= i < n :: next[i] != next[n]
      modifies this
      ensures Valid() && stack == old(stack) && old(done) <= done
      ensures Keeps(start, colour) && Explored(found, done, u, next, n + 1)
      ensures ClosedWithin(found, u, next, n + 1) && FromOutside(old(found), found, old(colour.Keys) - {u})
      decreases all - colour.Keys, 2
    {
      ghost var f, d := found, done;
      assert u in stack;
      if Colour(colour, next[n]) == GREY {
        Report(next[n]);
        ghost var c :| ClosedBy(c, u, next[n]) && found == f + [c];
        WithinAdded(f, c, u, next, n);
      } else if Colour(colour, next[n]) == WHITE {
        ghost var coloured := colour.Keys;
        Visit(next[n]);
        WithinStays(f, found, coloured, u, next, n);
      }
      OneMoreSettled(f, d, found, done, u, next, n);
    }

    /** The loop over the prerequisites of `u` in alphabetical order. */
    method Explore(u: Id)
      requires Valid() && u in all && stack != [] && stack[|stack| - 1] == u
      requires ClosedWithin(found, u, [], 0)
      modifies this
      ensures Valid() && stack == old(stack) && Keeps(old(colour), colour)
      ensures old(done) <= done && FromOutside(old(found), found, old(colour.Keys) - {u})
      ensures forall v | v in Succ(g, u) :: Settled(found, done, u, v)
      decreases all - colour.Keys, 3
    {
      var next := Sort(Alphabetic(Succ(g, u)), Succ(g, u));
      for i := 0 to |next|
        invariant Valid() && stack == old(stack) && Keeps(old(colour), colour)
        invariant old(done) <= done && FromOutside(old(found), found, old(colour.Keys) - {u})
        invariant Explored(found, done, u, next, i) && ClosedWithin(found, u, next, i)
      {
        assert next[i] in next;
        Inspect(u, next, i, old(colour));
      }
      assert forall v | v in Succ(g, u) :: v in next;
    }

    /** `find_cycles`: every finding is a simple cycle of prerequisites, every cycle uses the closing edge of some
        finding, no two findings have one closing edge, and so there is a finding exactly when the graph is cyclic. */
    method FindCycles()
      requires Valid() && all == Completed(g).Keys
      requires colour == map[] && found == [] && stack == []
      modifies this
      ensures forall c | c in found :: SimpleCycle(g, c)
      ensures OneEach(found, all) && forall w | ClosedWalk(g, w) :: Cut(found, w)
      ensures found == [] <==> Acyclic(g)
    {
      var roots := Sort(Alphabetic(g.Keys), g.Keys);
      SearchAll(roots);
      SearchDecides(g, all, colour, found, stack, done, roots);
    }

    /** Starts a search from every id that is still white. */
    method SearchAll(roots: seq<Id>)
      requires Valid() && stack == [] && forall r | r in roots :: r in all
      modifies this
      ensures Valid() && stack == []
      ensures forall i | 0 <= i < |roots| :: Colour(colour, roots[i]) == BLACK
    {
      for i := 0 to |roots|
        invariant Valid() && stack == []
        invariant forall j | 0 <= j < i :: Colour(colour, roots[j]) == BLACK
      {
        assert roots[i] in roots;
        if Colour(colour, roots[i]) == WHITE { Visit(roots[i]); }
      }
    }
  }

  /** The walk `w` uses the closing edge of some finding. */
  ghost predicate Cut(found: seq<seq<Id>>, w: seq<Id>)
  {
    exists i: nat :: i < |w| - 1 && Closing(found, w[i], w[i + 1])
  }

  /** When every id is black, the findings cut every cycle. */
  lemma SearchDecides(g: Graph, all: set<Id>, colour: map<Id, int>, found: seq<seq<Id>>, stack: seq<Id>, done: seq<Id>,
                      roots: seq<Id>)
    requires SearchState(g, all, colour, found, stack, done)
    requires (forall k | k in g :: k in roots) && forall i | 0 <= i < |roots| :: Colour(colour, roots[i]) == BLACK
    ensures OneEach(found, all) && forall w | ClosedWalk(g, w) :: Cut(found, w)
    ensures found == [] <==> Acyclic(g)
  {
    assert forall k | k in g :: k in roots && Colour(colour, k) == BLACK;
    forall w | ClosedWalk(g, w) ensures Cut(found, w) {
      if !Cut(found, w) {
        assert w[0 + 1] in Succ(g, w[0]);
        var p := FirstAt(done, w[0]);
        RankFalls(g, found, done, w, p);
      }
    }
    if found != [] { assert found[0] in found; }
  }

  lemma {:induction false} FirstAt(q: seq<Id>, x: Id) returns (p: nat)
    requires x in q
    ensures p < |q| && q[p] == x && x !in q[..p]
  {
    if q[0] == x {
      p := 0;
    } else {
      p := FirstAt(q[1..], x);
      p := p + 1;
      assert q[..p] == [q[0]] + q[1..][..p - 1];
    }
  }

  /** Along a walk that uses no closing edge, each id was finished before the one that needs it. */
  lemma {:induction false} RankFalls(g: Graph, found: seq<seq<Id>>, done: seq<Id>, w: seq<Id>, p: nat)
    requires IsWalk(g, w) && !Cut(found, w) && p < |done| && done[p] == w[0]
    requires forall i: nat | i < |done| :: FinishedAt(g, found, done, i)
    ensures |w| >= 2 ==> w[|w| - 1] in done[..p]
    decreases |w|
  {
    if |w| >= 2 {
      assert w[0 + 1] in Succ(g, w[0]) && FinishedAt(g, found, done, p);
      assert !Closing(found, w[0], w[0 + 1]);
      var q: nat :| q < p && done[q] == w[1];
      var r := w[1..];
      forall i | 0 <= i < |r| - 1 ensures r[i + 1] in Succ(g, r[i]) { assert w[i + 2] in Succ(g, w[i + 1]); }
      TailCut(found, w);
      RankFalls(g, found, done, r, q);
    }
  }

  lemma TailCut(found: seq<seq<Id>>, w: seq<Id>)
    requires w != []
    ensures Cut(found, w[1..]) ==> Cut(found, w)
  {
    if Cut(found, w[1..]) {
      var i: nat :| i < |w[1..]| - 1 && Closing(found, w[1..][i], w[1..][i + 1]);
      assert Closing(found, w[i + 1], w[i + 1 + 1]);
    }
  }

  lemma BackEdgeClosesCycle(g: Graph, stack: seq<Id>, k: nat, v: Id)
    requires k < |stack| && stack[k] == v && v in Succ(g, stack[|stack| - 1])
    requires forall i, j | 0 <= i < j < |stack| :: stack[i] != stack[j]
    requires forall i | 0 <= i < |stack| - 1 :: stack[i + 1] in Succ(g, stack[i])
    ensures SimpleCycle(g, stack[k..] + [v])
  {
    var c := stack[k..] + [v];
    forall i | 0 <= i < |c| - 1 ensures c[i + 1] in Succ(g, c[i]) {
      assert c[i] == stack[k + i];
      if i < |c| - 2 { assert c[i + 1] == stack[k + i + 1]; }
    }
  }
}
