/** The batch planner: batches of at most four requirements, never together with what they extend. */
module BatchPlan {
  import opened Graphs
  import opened Orders
  import opened Registry

  const BATCH_SIZE := 4

  /** For every id in scope, the id it extends if that is in scope too. */
  type Parents = map<Id, Option<Id>>

  predicate WithinScope(parentOf: Parents)
  {
    forall r | r in parentOf && parentOf[r].Some? :: parentOf[r].value in parentOf
  }

  function Scope(reqs: Requirements, status: string, stage: Option<string>): set<Id>
  {
    set r | r in reqs && reqs[r].status == status && (stage.None? || reqs[r].stage.text == stage.value)
  }

  function ExtendsGraph(reqs: Requirements, scope: set<Id>): (parentOf: Parents)
    requires scope <= reqs.Keys
    ensures parentOf.Keys == scope && WithinScope(parentOf)
  {
    map r | r in scope ::
      if reqs[r].extendsFirst.Some? && reqs[r].extendsFirst.value in scope then reqs[r].extendsFirst else None
  }

  /** The parent map as a prerequisite graph. */
  function ParentGraph(parentOf: Parents): Graph
  {
    map r | r in parentOf :: match parentOf[r] { case None => {} case Some(p) => {p} }
  }

  function Children(parentOf: Parents, p: Id): set<Id>
  {
    set r | r in parentOf && parentOf[r] == Some(p)
  }

  function PlanKey(r: Requirement, k: Id): SortKey
  {
    var rank := RankOf(r.priority);
    match r.stage.kind
    case Integer(n) => SortKey(0, n as real, "", rank, k)
    case _ => SortKey(1, 0.0, r.stage.text, rank, k)
  }

  function PlanKeys(reqs: Requirements): (keys: map<Id, SortKey>)
    ensures keys.Keys == reqs.Keys && KeysIdentify(keys)
  {
    map k | k in reqs :: PlanKey(reqs[k], k)
  }

  // ---- the plan, described without counters ---------------------------------------------------------

  /** Unplaced ids whose parent, if any, is in an earlier batch. */
  function Eligible(parentOf: Parents, unplaced: set<Id>): set<Id>
    requires unplaced <= parentOf.Keys
  {
    set r | r in unplaced && (parentOf[r].None? || parentOf[r].value !in unplaced)
  }

  function Cluster(reqs: Requirements, s: set<Id>, workflow: string): set<Id>
    requires s <= reqs.Keys
  {
    if workflow == "" then {} else set r | r in s && reqs[r].workflow == workflow
  }

  /** Stay in the current workflow if it has an eligible requirement, else take any. */
  function Candidates(reqs: Requirements, s: set<Id>, workflow: string): set<Id>
    requires s <= reqs.Keys
  {
    if Cluster(reqs, s, workflow) != {} then Cluster(reqs, s, workflow) else s
  }

  ghost predicate IsPick(reqs: Requirements, s: set<Id>, workflow: string, p: Id)
    requires s <= reqs.Keys
  {
    IsLeast(PlanKeys(reqs), Candidates(reqs, s, workflow), p)
  }

  function Elements(b: seq<Id>): set<Id> { set r | r in b }

  /** The workflow of the last pick; none at the start of a batch. */
  function WorkflowAfter(reqs: Requirements, b: seq<Id>): string
    requires Elements(b) <= reqs.Keys
  {
    if b == [] then "" else assert b[|b| - 1] in Elements(b); reqs[b[|b| - 1]].workflow
  }

  /** The `k`-th id of `b` is the preferred one among those eligible when the batch was begun and not picked before
      it. */
  ghost predicate GreedyAt(reqs: Requirements, eligible: set<Id>, b: seq<Id>, k: nat)
    requires k < |b| && Elements(b) <= eligible <= reqs.Keys
  {
    assert Elements(b[..k]) <= Elements(b);
    IsPick(reqs, eligible - Elements(b[..k]), WorkflowAfter(reqs, b[..k]), b[k])
  }

  ghost predicate Greedy(reqs: Requirements, eligible: set<Id>, b: seq<Id>)
    requires eligible <= reqs.Keys
  {
    Elements(b) <= eligible && forall k: nat | k < |b| :: GreedyAt(reqs, eligible, b, k)
  }

  /** A batch closes when it is full or nothing eligible is left. */
  ghost predicate GreedyBatch(reqs: Requirements, eligible: set<Id>, b: seq<Id>)
    requires eligible <= reqs.Keys
  {
    Greedy(reqs, eligible, b) && |b| <= BATCH_SIZE && (|b| == BATCH_SIZE || eligible <= Elements(b))
  }

  /** The ids in the first `i` batches. */
  function InBatches(plan: seq<seq<Id>>, i: nat): set<Id>
    requires i <= |plan|
  {
    if i == 0 then {} else InBatches(plan, i - 1) + Elements(plan[i - 1])
  }

  function Left(parentOf: Parents, plan: seq<seq<Id>>, i: nat): set<Id>
    requires i <= |plan|
  {
    parentOf.Keys - InBatches(plan, i)
  }

  /** Every batch is the greedy one for what the batches before it leave. */
  ghost predicate GreedyBatches(reqs: Requirements, parentOf: Parents, plan: seq<seq<Id>>)
    requires parentOf.Keys <= reqs.Keys
  {
    forall i: nat | i < |plan| :: BatchAt(reqs, parentOf, plan, i)
  }

  ghost predicate BatchAt(reqs: Requirements, parentOf: Parents, plan: seq<seq<Id>>, i: nat)
    requires parentOf.Keys <= reqs.Keys && i < |plan|
  {
    plan[i] != [] && GreedyBatch(reqs, Eligible(parentOf, Left(parentOf, plan, i)), plan[i])
  }

  /** The plan: greedy batches until nothing is left. */
  ghost predicate IsPlan(reqs: Requirements, parentOf: Parents, plan: seq<seq<Id>>)
    requires parentOf.Keys <= reqs.Keys
  {
    GreedyBatches(reqs, parentOf, plan) && Left(parentOf, plan, |plan|) == {}
  }

  lemma GreedyDistinct(reqs: Requirements, eligible: set<Id>, b: seq<Id>)
    requires eligible <= reqs.Keys && Greedy(reqs, eligible, b)
    ensures Distinct(b)
  {
    forall i, j | 0 <= i < j < |b| ensures b[i] != b[j] {
      assert b[..j][i] == b[i];
      assert GreedyAt(reqs, eligible, b, j);
    }
  }

  lemma PicksAgree(reqs: Requirements, eligible: set<Id>, a: seq<Id>, b: seq<Id>, k: nat)
    requires eligible <= reqs.Keys && Greedy(reqs, eligible, a) && Greedy(reqs, eligible, b)
    requires k < |a| && k < |b| && forall i | 0 <= i < k :: a[i] == b[i]
    ensures a[k] == b[k]
  {
    assert a[..k] == b[..k];
    var s, w := eligible - Elements(a[..k]), WorkflowAfter(reqs, a[..k]);
    assert GreedyAt(reqs, eligible, a, k) && GreedyAt(reqs, eligible, b, k);
    LeastUnique(PlanKeys(reqs), Candidates(reqs, s, w), a[k], b[k]);
  }

  lemma {:induction false} GreedyUnique(reqs: Requirements, eligible: set<Id>, a: seq<Id>, b: seq<Id>, k: nat)
    requires eligible <= reqs.Keys && Greedy(reqs, eligible, a) && Greedy(reqs, eligible, b)
    requires k <= |a| && k <= |b|
    ensures forall i | 0 <= i < k :: a[i] == b[i]
  {
    if k > 0 {
      GreedyUnique(reqs, eligible, a, b, k - 1);
      PicksAgree(reqs, eligible, a, b, k - 1);
    }
  }

  lemma GreedyLength(reqs: Requirements, eligible: set<Id>, b: seq<Id>)
    requires eligible <= reqs.Keys && GreedyBatch(reqs, eligible, b)
    ensures |b| == if |eligible| < BATCH_SIZE then |eligible| else BATCH_SIZE
  {
    GreedyDistinct(reqs, eligible, b);
    ElementsSize(b);
    SubsetSmaller(Elements(b), eligible);
    if |b| < BATCH_SIZE { assert Elements(b) == eligible; }
  }

  lemma GreedyBatchUnique(reqs: Requirements, eligible: set<Id>, a: seq<Id>, b: seq<Id>)
    requires eligible <= reqs.Keys && GreedyBatch(reqs, eligible, a) && GreedyBatch(reqs, eligible, b)
    ensures a == b
  {
    GreedyLength(reqs, eligible, a);
    GreedyLength(reqs, eligible, b);
    GreedyUnique(reqs, eligible, a, b, |a|);
  }

  lemma BatchesAgree(reqs: Requirements, parentOf: Parents, p: seq<seq<Id>>, q: seq<seq<Id>>, i: nat)
    requires parentOf.Keys <= reqs.Keys && GreedyBatches(reqs, parentOf, p) && GreedyBatches(reqs, parentOf, q)
    requires i < |p| && i < |q| && InBatches(p, i) == InBatches(q, i)
    ensures p[i] == q[i]
  {
    assert BatchAt(reqs, parentOf, p, i) && BatchAt(reqs, parentOf, q, i);
    GreedyBatchUnique(reqs, Eligible(parentOf, Left(parentOf, p, i)), p[i], q[i]);
  }

  lemma NoBatchPastTheEnd(reqs: Requirements, parentOf: Parents, p: seq<seq<Id>>, i: nat)
    requires parentOf.Keys <= reqs.Keys && GreedyBatches(reqs, parentOf, p) && i < |p|
    ensures Left(parentOf, p, i) != {}
  {
    assert BatchAt(reqs, parentOf, p, i);
    assert p[i][0] in Elements(p[i]);
  }

  /** The rules determine the plan: there is only one. */
  lemma {:induction false} PlanUnique(reqs: Requirements, parentOf: Parents, p: seq<seq<Id>>, q: seq<seq<Id>>, i: nat)
    requires parentOf.Keys <= reqs.Keys && IsPlan(reqs, parentOf, p) && IsPlan(reqs, parentOf, q)
    requires i <= |p| && i <= |q| && (forall j | 0 <= j < i :: p[j] == q[j]) && InBatches(p, i) == InBatches(q, i)
    ensures p == q
    decreases |p| - i
  {
    if i < |p| && i < |q| {
      BatchesAgree(reqs, parentOf, p, q, i);
      PlanUnique(reqs, parentOf, p, q, i + 1);
    } else {
      if i < |p| { NoBatchPastTheEnd(reqs, parentOf, p, i); }
      if i < |q| { NoBatchPastTheEnd(reqs, parentOf, q, i); }
    }
  }

  // ---- what makes a plan legal ---------------------------------------------------------------------

  /** `plan` splits `unplaced` into batches of one to four ids, each with its parent, if any, in an earlier batch. */
  ghost predicate LegalPlan(parentOf: Parents, unplaced: set<Id>, plan: seq<seq<Id>>)
    requires unplaced <= parentOf.Keys
    decreases |plan|
  {
    if plan == [] then unplaced == {} else
    var b := plan[0];
    && 1 <= |b| <= BATCH_SIZE
    && (forall i, j | 0 <= i < j < |b| :: b[i] != b[j])
    && (forall r | r in b :: r in Eligible(parentOf, unplaced))
    && LegalPlan(parentOf, unplaced - Elements(b), plan[1..])
  }

  /** In a legal plan every id is in exactly one batch, and its parent in a strictly earlier one. */
  lemma {:induction false} LegalPlanMeaning(parentOf: Parents, unplaced: set<Id>, plan: seq<seq<Id>>, r: Id)
    returns (at: nat)
    requires unplaced <= parentOf.Keys && LegalPlan(parentOf, unplaced, plan) && r in unplaced
    ensures at < |plan| && r in plan[at]
    ensures forall i | 0 <= i < |plan| && r in plan[i] :: i == at
    ensures parentOf[r].Some? && parentOf[r].value in unplaced ==>
              exists i :: 0 <= i < at && parentOf[r].value in plan[i]
    decreases |plan|
  {
    var b, rest := plan[0], unplaced - Elements(plan[0]);
    if r in b {
      at := 0;
      forall i | 0 < i < |plan| ensures r !in plan[i] { OnlyUnplaced(parentOf, rest, plan[1..], i - 1); }
    } else {
      var k := LegalPlanMeaning(parentOf, rest, plan[1..], r);
      at := k + 1;
      assert plan[1..][k] == plan[at];
      forall i | 0 <= i < |plan| && r in plan[i] ensures i == at { if i > 0 { assert plan[1..][i - 1] == plan[i]; } }
      if parentOf[r].Some? && parentOf[r].value in unplaced {
        var p := parentOf[r].value;
        if p in b {
          assert p in plan[0];
        } else {
          var i :| 0 <= i < k && p in plan[1..][i];
          assert p in plan[i + 1];
        }
      }
    }
  }

  lemma {:induction false} OnlyUnplaced(parentOf: Parents, unplaced: set<Id>, plan: seq<seq<Id>>, i: nat)
    requires unplaced <= parentOf.Keys && LegalPlan(parentOf, unplaced, plan) && i < |plan|
    ensures forall r | r in plan[i] :: r in unplaced
    decreases |plan|
  {
    if i > 0 { OnlyUnplaced(parentOf, unplaced - Elements(plan[0]), plan[1..], i - 1); }
  }

  lemma ElementsSize(b: seq<Id>)
    requires forall i, j | 0 <= i < j < |b| :: b[i] != b[j]
    ensures |Elements(b)| == |b|
  {
    if b != [] {
      var init := b[..|b| - 1];
      ElementsSize(init);
      assert b == init + [b[|b| - 1]];
      assert Elements(b) == Elements(init) + {b[|b| - 1]};
      assert b[|b| - 1] !in Elements(init);
    }
  }

  lemma RemoveBatch(unplaced: set<Id>, b: seq<Id>)
    requires (forall i, j | 0 <= i < j < |b| :: b[i] != b[j]) && forall i | 0 <= i < |b| :: b[i] in unplaced
    ensures Elements(b) <= unplaced && |unplaced - Elements(b)| == |unplaced| - |b|
  {
    ElementsSize(b);
    assert unplaced == Elements(b) + (unplaced - Elements(b));
  }

  lemma FirstBatch(parentOf: Parents, unplaced: set<Id>, plan: seq<seq<Id>>)
    requires unplaced <= parentOf.Keys && LegalPlan(parentOf, unplaced, plan) && plan != []
    ensures 1 <= |plan[0]| <= BATCH_SIZE && plan[0][0] in unplaced
    ensures |unplaced - Elements(plan[0])| == |unplaced| - |plan[0]|
  {
    assert forall i | 0 <= i < |plan[0]| :: plan[0][i] in plan[0];
    RemoveBatch(unplaced, plan[0]);
  }

  lemma SomethingIsEligible(parentOf: Parents, unplaced: set<Id>)
    requires WithinScope(parentOf) && Acyclic(ParentGraph(parentOf)) && unplaced <= parentOf.Keys && unplaced != {}
    ensures Eligible(parentOf, unplaced) != {}
  {
    var g := ParentGraph(parentOf);
    AcyclicIffAllPlaced(g);
    var u :| u in unplaced;
    LowestIsEligible(parentOf, unplaced, u, |g|);
  }

  lemma {:induction false} LowestIsEligible(parentOf: Parents, unplaced: set<Id>, u: Id, n: nat)
    requires unplaced <= parentOf.Keys && u in unplaced && u in Placed(ParentGraph(parentOf), n)
    ensures Eligible(parentOf, unplaced) != {}
    decreases n
  {
    if u !in Eligible(parentOf, unplaced) {
      assert parentOf[u].value in ParentGraph(parentOf)[u];
      LowestIsEligible(parentOf, unplaced, parentOf[u].value, n - 1);
    }
  }

  /** A batch is closed short only when nothing eligible is left out of it. */
  ghost predicate WorkConserving(parentOf: Parents, unplaced: set<Id>, plan: seq<seq<Id>>)
    requires unplaced <= parentOf.Keys
    decreases |plan|
  {
    plan != [] ==>
      (|plan[0]| < BATCH_SIZE ==> forall r | r in Eligible(parentOf, unplaced) :: r in plan[0]) &&
      WorkConserving(parentOf, unplaced - Elements(plan[0]), plan[1..])
  }

  /** The planner's batches are legal and work-conserving. */
  lemma {:induction false} PlanIsLegal(reqs: Requirements, parentOf: Parents, plan: seq<seq<Id>>, i: nat)
    requires parentOf.Keys <= reqs.Keys && IsPlan(reqs, parentOf, plan) && i <= |plan|
    ensures LegalPlan(parentOf, Left(parentOf, plan, i), plan[i..])
    ensures WorkConserving(parentOf, Left(parentOf, plan, i), plan[i..])
    decreases |plan| - i
  {
    if i < |plan| {
      var left := Left(parentOf, plan, i);
      PlanIsLegal(reqs, parentOf, plan, i + 1);
      assert BatchAt(reqs, parentOf, plan, i);
      assert plan[i..][1..] == plan[i + 1..] && plan[i..][0] == plan[i];
      GreedyDistinct(reqs, Eligible(parentOf, left), plan[i]);
      assert Left(parentOf, plan, i + 1) == left - Elements(plan[i]);
      assert forall r | r in plan[i] :: r in Elements(plan[i]);
      assert |plan[i]| < BATCH_SIZE ==> forall r | r in Eligible(parentOf, left) :: r in Elements(plan[i]);
    }
  }

  // ---- how many batches ----------------------------------------------------------------------------

  /** List scheduling: a batch is left short only when everything unplaced has an ancestor in it, so short batches
      are no more numerous than the rounds `depth` of the Extends graph. */
  lemma {:induction false} BatchCount(parentOf: Parents, unplaced: set<Id>, plan: seq<seq<Id>>, depth: nat, short: nat)
    requires unplaced <= parentOf.Keys && LegalPlan(parentOf, unplaced, plan) &&
             WorkConserving(parentOf, unplaced, plan)
    requires unplaced <= Placed(ParentGraph(parentOf), depth) && unplaced !! Placed(ParentGraph(parentOf), short)
    requires short <= depth
    ensures 4 * |plan| <= |unplaced| + 3 * (depth - short)
    decreases |plan|
  {
    if plan != [] {
      var b := plan[0];
      var rest := unplaced - Elements(b);
      FirstBatch(parentOf, unplaced, plan);
      if |b| == BATCH_SIZE {
        BatchCount(parentOf, rest, plan[1..], depth, short);
      } else {
        assert b[0] in Placed(ParentGraph(parentOf), depth) && b[0] !in Placed(ParentGraph(parentOf), short);
        BatchCount(parentOf, rest, plan[1..], depth, short + 1);
      }
    }
  }

  /** No legal plan has fewer batches than ids over four, or than the ids on a chain of Extends. */
  lemma {:induction false} LegalPlanIsLong(parentOf: Parents, unplaced: set<Id>, plan: seq<seq<Id>>, w: seq<Id>)
    requires unplaced <= parentOf.Keys && LegalPlan(parentOf, unplaced, plan)
    requires (forall i | 0 <= i < |w| :: w[i] in unplaced) &&
             forall i | 0 <= i < |w| - 1 :: parentOf[w[i]] == Some(w[i + 1])
    ensures |unplaced| <= 4 * |plan| && |w| <= |plan|
    decreases |plan|
  {
    assert w != [] ==> w[0] in unplaced;
    if plan != [] {
      var b := plan[0];
      FirstBatch(parentOf, unplaced, plan);
      var v := if w == [] then [] else w[..|w| - 1];
      forall i | 0 <= i < |v| ensures v[i] in unplaced - Elements(b) {
        assert v[i] == w[i] && parentOf[w[i]] == Some(w[i + 1]) && w[i + 1] in unplaced;
        assert w[i] !in Eligible(parentOf, unplaced);
      }
      forall i | 0 <= i < |v| - 1 ensures parentOf[v[i]] == Some(v[i + 1]) {
        assert parentOf[w[i]] == Some(w[i + 1]);
      }
      LegalPlanIsLong(parentOf, unplaced - Elements(b), plan[1..], v);
    }
  }

  /** `depth` is the number of rounds of the Extends graph, that is, its longest chain. */
  ghost predicate IsDepth(g: Graph, depth: nat)
  {
    Placed(g, depth) == Final(g) && (depth > 0 ==> Placed(g, depth) - Placed(g, depth - 1) != {})
  }

  /** With `n` ids and a longest Extends chain of `depth` ids the planner makes at most (n + 3 * depth) / 4 batches. */
  lemma PlanSize(reqs: Requirements, parentOf: Parents, plan: seq<seq<Id>>, depth: nat)
    requires parentOf.Keys <= reqs.Keys && WithinScope(parentOf) && Acyclic(ParentGraph(parentOf))
    requires IsPlan(reqs, parentOf, plan) && IsDepth(ParentGraph(parentOf), depth)
    ensures 4 * |plan| <= |parentOf| + 3 * depth
  {
    AcyclicIffAllPlaced(ParentGraph(parentOf));
    assert ParentGraph(parentOf).Keys == parentOf.Keys && |parentOf.Keys| == |parentOf|;
    PlanIsLegal(reqs, parentOf, plan, 0);
    assert Left(parentOf, plan, 0) == parentOf.Keys && plan[0..] == plan;
    BatchCount(parentOf, parentOf.Keys, plan, depth, 0);
  }

  /** No legal plan has fewer than `n` / 4 or than `depth` batches. */
  lemma AnyPlanSize(parentOf: Parents, plan: seq<seq<Id>>, depth: nat)
    requires WithinScope(parentOf) && LegalPlan(parentOf, parentOf.Keys, plan) && IsDepth(ParentGraph(parentOf), depth)
    ensures |parentOf| <= 4 * |plan| && depth <= |plan|
  {
    var g := ParentGraph(parentOf);
    assert |parentOf.Keys| == |parentOf|;
    var w: seq<Id> := [];
    if depth > 0 {
      var k :| k in Placed(g, depth) - Placed(g, depth - 1);
      w := LongestChain(g, k, depth);
      ChainOfParents(parentOf, w);
    }
    LegalPlanIsLong(parentOf, parentOf.Keys, plan, w);
  }

  /** The planner never needs more than seven quarters of the batches of the best legal plan. */
  lemma PlanIsNearOptimal(reqs: Requirements, parentOf: Parents, plan: seq<seq<Id>>, other: seq<seq<Id>>)
    requires parentOf.Keys <= reqs.Keys && WithinScope(parentOf) && Acyclic(ParentGraph(parentOf))
    requires IsPlan(reqs, parentOf, plan) && LegalPlan(parentOf, parentOf.Keys, other)
    ensures 4 * |plan| <= 7 * |other|
  {
    var depth := DepthOf(ParentGraph(parentOf), |ParentGraph(parentOf)|);
    PlanSize(reqs, parentOf, plan, depth);
    AnyPlanSize(parentOf, other, depth);
  }

  lemma {:induction false} DepthOf(g: Graph, n: nat) returns (depth: nat)
    requires Placed(g, n) == Final(g)
    ensures IsDepth(g, depth)
  {
    if n > 0 && Placed(g, n - 1) == Placed(g, n) {
      depth := DepthOf(g, n - 1);
    } else {
      depth := n;
      if n > 0 {
        PlacedGrows(g, n - 1);
        var k :| k in Placed(g, n) && k !in Placed(g, n - 1);
        assert k in Placed(g, n) - Placed(g, n - 1);
      }
    }
  }

  lemma ChainOfParents(parentOf: Parents, w: seq<Id>)
    requires WithinScope(parentOf) && IsWalk(ParentGraph(parentOf), w) && w[0] in parentOf
    ensures forall i | 0 <= i < |w| :: w[i] in parentOf
    ensures forall i | 0 <= i < |w| - 1 :: parentOf[w[i]] == Some(w[i + 1])
  {
    var g := ParentGraph(parentOf);
    forall i | 0 <= i < |w| - 1 ensures w[i] in parentOf && parentOf[w[i]] == Some(w[i + 1]) {
      assert w[i + 1] in Succ(g, w[i]);
    }
    if |w| > 1 { assert parentOf[w[|w| - 2]] == Some(w[|w| - 1]); }
  }

  // ---- the code ------------------------------------------------------------------------------------

  /** In-degrees and children lists, filled in one pass. */
  method CountParents(parentOf: Parents) returns (inDegree: map<Id, int>, children: Graph)
    requires WithinScope(parentOf)
    ensures inDegree.Keys == children.Keys == parentOf.Keys
    ensures forall r | r in parentOf :: inDegree[r] == if parentOf[r].Some? then 1 else 0
    ensures forall p | p in parentOf :: children[p] == Children(parentOf, p)
  {
    inDegree := map r | r in parentOf :: 0;
    children := map r | r in parentOf :: {};
    var todo := parentOf.Keys;
    while todo != {}
      invariant todo <= parentOf.Keys && Counted(parentOf, todo, inDegree, children)
    {
      var r :| r in todo;
      CountOne(parentOf, todo, inDegree, children, r);
      todo := todo - {r};
      if parentOf[r].Some? {
        var p := parentOf[r].value;
        inDegree := inDegree[r := inDegree[r] + 1];
        children := children[p := children[p] + {r}];
      }
    }
  }

  ghost predicate Counted(parentOf: Parents, todo: set<Id>, inDegree: map<Id, int>, children: Graph)
  {
    && inDegree.Keys == children.Keys == parentOf.Keys
    && (forall r | r in parentOf :: inDegree[r] == if r !in todo && parentOf[r].Some? then 1 else 0)
    && (forall p | p in parentOf :: children[p] == Children(parentOf, p) - todo)
  }

  lemma CountOne(parentOf: Parents, todo: set<Id>, inDegree: map<Id, int>, children: Graph, r: Id)
    requires WithinScope(parentOf) && Counted(parentOf, todo, inDegree, children) && r in todo && r in parentOf
    ensures parentOf[r].None? ==> Counted(parentOf, todo - {r}, inDegree, children)
    ensures parentOf[r].Some? ==>
              Counted(parentOf, todo - {r}, inDegree[r := inDegree[r] + 1],
                      children[parentOf[r].value := children[parentOf[r].value] + {r}])
  {
    forall p | p in parentOf
      ensures Children(parentOf, p) - (todo - {r}) ==
              Children(parentOf, p) - todo + if parentOf[r] == Some(p) then {r} else {}
    {}
  }

  /** Decrements the in-degree of every child of a placed id and adds those that reach zero. */
  method Release(inDegree: map<Id, int>, ready: set<Id>, kids: set<Id>)
    returns (inDegree': map<Id, int>, ready': set<Id>)
    requires kids <= inDegree.Keys
    ensures inDegree' == map r | r in inDegree :: if r in kids then inDegree[r] - 1 else inDegree[r]
    ensures ready' == ready + set c | c in kids && inDegree[c] == 1
  {
    inDegree', ready' := inDegree, ready;
    var todo := kids;
    while todo != {}
      invariant todo <= kids && inDegree'.Keys == inDegree.Keys
      invariant forall r | r in inDegree :: inDegree'[r] == if r in kids - todo then inDegree[r] - 1 else inDegree[r]
      invariant ready' == ready + set c | c in kids - todo && inDegree[c] == 1
    {
      var child :| child in todo;
      todo := todo - {child};
      inDegree' := inDegree'[child := inDegree'[child] - 1];
      if inDegree'[child] == 0 { ready' := ready' + {child}; }
    }
  }

  /** What in-degrees and the ready set mean while `placed` is placed. */
  ghost predicate Counts(parentOf: Parents, placed: set<Id>, inDegree: map<Id, int>, ready: set<Id>)
  {
    && inDegree.Keys == parentOf.Keys
    && (forall r | r in parentOf && r !in placed ::
          inDegree[r] == if parentOf[r].Some? && parentOf[r].value !in placed then 1 else 0)
    && (forall r :: r in ready <==> r in parentOf && r !in placed && inDegree[r] == 0)
    && (forall r | r in parentOf && r in placed && parentOf[r].Some? :: parentOf[r].value in placed)
  }

  lemma ReleaseKeepsCounts(parentOf: Parents, placed: set<Id>, inDegree: map<Id, int>, ready: set<Id>, p: Id,
                           inDegree': map<Id, int>, ready': set<Id>)
    requires WithinScope(parentOf) && Counts(parentOf, placed, inDegree, ready) && p in ready
    requires inDegree'.Keys == inDegree.Keys
    requires var kids := Children(parentOf, p);
             && (forall r | r in inDegree :: inDegree'[r] == if r in kids then inDegree[r] - 1 else inDegree[r])
             && forall c :: c in ready' <==> c in ready - {p} || (c in kids && c in inDegree && inDegree[c] == 1)
    ensures Counts(parentOf, placed + {p}, inDegree', ready')
  {
  }

  /** The Extends references of the ids in scope. */
  method BuildExtendsGraph(reqs: Requirements, scope: set<Id>) returns (parentOf: Parents)
    requires scope <= reqs.Keys
    ensures parentOf == ExtendsGraph(reqs, scope)
  {
    parentOf := map[];
    var todo := scope;
    while todo != {}
      invariant todo <= scope && parentOf.Keys == scope - todo
      invariant forall r | r in parentOf :: parentOf[r] == ExtendsGraph(reqs, scope)[r]
    {
      var r :| r in todo;
      todo := todo - {r};
      var m := reqs[r].extendsFirst;
      if m.Some? && m.value in scope {
        parentOf := parentOf[r := Some(m.value)];
      } else {
        parentOf := parentOf[r := None];
      }
    }
  }

  /** Every id comes after its parent. */
  ghost predicate ParentsFirst(parentOf: Parents, order: seq<Id>)
  {
    forall i | 0 <= i < |order| && order[i] in parentOf && parentOf[order[i]].Some? ::
      parentOf[order[i]].value in order[..i]
  }

  /** `release` for a queue: children that reach zero are appended in alphabetical order. */
  method ReleaseToQueue(inDegree: map<Id, int>, queue: seq<Id>, kids: set<Id>)
    returns (inDegree': map<Id, int>, queue': seq<Id>)
    requires kids <= inDegree.Keys && Distinct(queue) && forall c | c in kids :: c !in queue
    ensures Released(inDegree, queue, kids, inDegree', queue')
  {
    inDegree', queue' := inDegree, queue;
    var order := Sort(Alphabetic(kids), kids);
    for i := 0 to |order|
      invariant Elements(order[..i]) <= kids && Released(inDegree, queue, Elements(order[..i]), inDegree', queue')
    {
      var child := order[i];
      assert child in order && order[..i + 1] == order[..i] + [child];
      ReleaseOne(inDegree, queue, Elements(order[..i]), inDegree', queue', child);
      assert Elements(order[..i + 1]) == Elements(order[..i]) + {child};
      inDegree' := inDegree'[child := inDegree'[child] - 1];
      if inDegree'[child] == 0 { queue' := queue' + [child]; }
    }
    assert order[..|order|] == order && Elements(order) == kids;
  }

  /** The children `kids` have been decremented, and those that reached zero were appended. */
  ghost predicate Released(inDegree: map<Id, int>, queue: seq<Id>, kids: set<Id>,
                           inDegree': map<Id, int>, queue': seq<Id>)
  {
    && inDegree'.Keys == inDegree.Keys
    && (forall r | r in inDegree :: inDegree'[r] == if r in kids then inDegree[r] - 1 else inDegree[r])
    && Distinct(queue')
    && forall c :: c in queue' <==> c in queue || (c in kids && c in inDegree && inDegree[c] == 1)
  }

  lemma ReleaseOne(inDegree: map<Id, int>, queue: seq<Id>, kids: set<Id>, inDegree': map<Id, int>, queue': seq<Id>,
                   c: Id)
    requires Released(inDegree, queue, kids, inDegree', queue') && c in inDegree && c !in kids && c !in queue
    ensures var d := inDegree'[c := inDegree'[c] - 1];
            Released(inDegree, queue, kids + {c}, d, if d[c] == 0 then queue' + [c] else queue')
  {
  }

  /** The queue holds exactly the ready ids, and the order so far respects parents. */
  ghost predicate TopoState(parentOf: Parents, order: seq<Id>, inDegree: map<Id, int>, queue: seq<Id>)
  {
    && Counts(parentOf, Elements(order), inDegree, Elements(queue))
    && Distinct(order) && Distinct(queue) && ParentsFirst(parentOf, order) && Elements(order) <= parentOf.Keys
  }

  lemma TopoStep(parentOf: Parents, order: seq<Id>, inDegree: map<Id, int>, queue: seq<Id>,
                 inDegree': map<Id, int>, queue': seq<Id>)
    requires WithinScope(parentOf) && TopoState(parentOf, order, inDegree, queue) && queue != []
    requires Released(inDegree, queue[1..], Children(parentOf, queue[0]), inDegree', queue')
    ensures TopoState(parentOf, order + [queue[0]], inDegree', queue')
    ensures parentOf.Keys - Elements(order + [queue[0]]) < parentOf.Keys - Elements(order)
  {
    var node := queue[0];
    assert node in Elements(queue);
    ReleaseKeepsCounts(parentOf, Elements(order), inDegree, Elements(queue), node, inDegree', Elements(queue'));
    var o := order + [node];
    assert Elements(o) == Elements(order) + {node};
    assert node in parentOf.Keys - Elements(order);
    assert Distinct(o) by { assert node !in Elements(order); }
    forall i | 0 <= i < |o| && o[i] in parentOf && parentOf[o[i]].Some? ensures parentOf[o[i]].value in o[..i] {
      if i < |order| {
        assert o[..i] == order[..i];
      } else {
        assert o[..i] == order && parentOf[node].value in Elements(order);
      }
    }
  }

  /** The end of Kahn's algorithm: all ids were ordered exactly when no cycle of Extends exists. */
  lemma TopoDecides(parentOf: Parents, order: seq<Id>, inDegree: map<Id, int>)
    requires WithinScope(parentOf) && TopoState(parentOf, order, inDegree, [])
    ensures |order| == |parentOf| <==> Acyclic(ParentGraph(parentOf))
    ensures |order| == |parentOf| ==> Elements(order) == parentOf.Keys
  {
    var g := ParentGraph(parentOf);
    ElementsSize(order);
    assert |parentOf.Keys| == |parentOf|;
    AcyclicIffAllPlaced(g);
    if Elements(order) == parentOf.Keys {
      OrderedArePlaced(parentOf, order, |order|);
      assert forall k | k in g :: k in Final(g);
    } else {
      StrictSubsetSmaller(Elements(order), parentOf.Keys);
      if Acyclic(g) { SomethingIsEligible(parentOf, parentOf.Keys - Elements(order)); }
    }
  }

  lemma {:induction false} OrderedArePlaced(parentOf: Parents, order: seq<Id>, n: nat)
    requires WithinScope(parentOf) && ParentsFirst(parentOf, order) && Elements(order) <= parentOf.Keys && n <= |order|
    ensures forall i | 0 <= i < n :: order[i] in Final(ParentGraph(parentOf))
  {
    if n > 0 {
      OrderedArePlaced(parentOf, order, n - 1);
      var k := order[n - 1];
      assert k in Elements(order);
      if parentOf[k].Some? {
        var i :| 0 <= i < n - 1 && order[..n - 1][i] == parentOf[k].value;
        assert order[i] in Final(ParentGraph(parentOf));
      }
      FinalIntro(ParentGraph(parentOf), k);
    }
  }

  lemma TopoStart(parentOf: Parents, inDegree: map<Id, int>, queue: seq<Id>)
    requires WithinScope(parentOf) && inDegree.Keys == parentOf.Keys
    requires forall r | r in parentOf :: inDegree[r] == if parentOf[r].Some? then 1 else 0
    requires Distinct(queue) && forall k :: k in queue <==> k in parentOf && inDegree[k] == 0
    ensures TopoState(parentOf, [], inDegree, queue)
  {
    assert Elements([]) == {};
  }

  /** `topo_order`: an order with parents first, or None (an error) exactly when the Extends references form a cycle. */
  method TopoOrder(parentOf: Parents) returns (r: Option<seq<Id>>)
    requires WithinScope(parentOf)
    ensures r.Some? <==> Acyclic(ParentGraph(parentOf))
    ensures r.Some? ==> Distinct(r.value) && Elements(r.value) == parentOf.Keys && ParentsFirst(parentOf, r.value)
  {
    var inDegree, children := CountParents(parentOf);
    var roots := set k | k in parentOf && inDegree[k] == 0;
    var queue := Sort(Alphabetic(roots), roots);
    var order := [];
    TopoStart(parentOf, inDegree, queue);
    while queue != []
      invariant TopoState(parentOf, order, inDegree, queue)
      decreases parentOf.Keys - Elements(order)
    {
      var node := queue[0];
      var inDegree', queue' := ReleaseToQueue(inDegree, queue[1..], children[node]);
      TopoStep(parentOf, order, inDegree, queue, inDegree', queue');
      order, inDegree, queue := order + [node], inDegree', queue';
    }
    TopoDecides(parentOf, order, inDegree);
    if |order| != |parentOf| { return None; }
    return Some(order);
  }

  // ---- build_plan ----------------------------------------------------------------------------------

  datatype PlanResult = Planned(batches: seq<seq<Id>>) | CycleError | Stalled(remaining: set<Id>)

  /** What the inner loop maintains; `start` are the ids eligible when the batch was begun. */
  ghost predicate FillState(reqs: Requirements, parentOf: Parents, placed0: set<Id>, start: set<Id>, placed: set<Id>,
                            batch: seq<Id>, deferred: set<Id>, inDegree: map<Id, int>, ready: set<Id>)
    requires parentOf.Keys <= reqs.Keys && start <= reqs.Keys
  {
    && |batch| <= BATCH_SIZE
    && start == Eligible(parentOf, parentOf.Keys - placed0)
    && Counts(parentOf, placed, inDegree, ready)
    && placed == placed0 + Elements(batch)
    && Greedy(reqs, start, batch)
    && (forall d | d in deferred :: d in parentOf && parentOf[d].Some? && parentOf[d].value in batch)
  }

  /** Offering more ids does not change the pick, as long as the pick is not one of the extra ones. */
  lemma PickIsGreedy(reqs: Requirements, offered: set<Id>, eligible: set<Id>, workflow: string, p: Id)
    requires eligible <= offered <= reqs.Keys && IsPick(reqs, offered, workflow, p) && p in eligible
    ensures IsPick(reqs, eligible, workflow, p)
  {
    assert Cluster(reqs, eligible, workflow) <= Cluster(reqs, offered, workflow);
    if Cluster(reqs, offered, workflow) != {} { assert p in Cluster(reqs, eligible, workflow); }
    assert p in Candidates(reqs, eligible, workflow) &&
      Candidates(reqs, eligible, workflow) <= Candidates(reqs, offered, workflow);
  }

  method Choose(reqs: Requirements, eligible: set<Id>, workflow: string) returns (pick: Id)
    requires eligible <= reqs.Keys && eligible != {}
    ensures pick in eligible && IsPick(reqs, eligible, workflow, pick)
  {
    var candidates := if workflow != "" then set r | r in eligible && reqs[r].workflow == workflow else {};
    if candidates == {} { candidates := eligible; }
    pick := Minimum(PlanKeys(reqs), candidates);
  }

  /** The inner loop of `build_plan`. */
  method FillBatch(reqs: Requirements, parentOf: Parents, children: Graph, inDegree0: map<Id, int>, ready0: set<Id>,
                   placed0: set<Id>)
    returns (batch: seq<Id>, inDegree: map<Id, int>, ready: set<Id>, placed: set<Id>)
    requires parentOf.Keys <= reqs.Keys && WithinScope(parentOf)
    requires children.Keys == parentOf.Keys && forall p | p in parentOf :: children[p] == Children(parentOf, p)
    requires Counts(parentOf, placed0, inDegree0, ready0)
    ensures GreedyBatch(reqs, Eligible(parentOf, parentOf.Keys - placed0), batch)
    ensures Counts(parentOf, placed, inDegree, ready)
    ensures placed == placed0 + Elements(batch)
  {
    batch, inDegree, ready, placed := [], inDegree0, ready0, placed0;
    var batchSet: set<Id> := {};
    var deferred: set<Id> := {};
    var workflow := "";
    ghost var start := Eligible(parentOf, parentOf.Keys - placed0);
    assert Elements(batch) == {};
    while |batch| < BATCH_SIZE && ready - deferred != {}
      invariant FillState(reqs, parentOf, placed0, start, placed, batch, deferred, inDegree, ready)
      invariant batchSet == Elements(batch) && workflow == WorkflowAfter(reqs, batch)
      decreases BATCH_SIZE - |batch|, ready - deferred
    {
      var pick := Choose(reqs, ready - deferred, workflow);
      var parent := parentOf[pick];
      if parent.Some? && parent.value in batchSet {
        deferred := deferred + {pick};
        continue;
      }
      ghost var inDegreeBefore, readyBefore := inDegree, ready;
      inDegree, ready := Release(inDegree, ready - {pick}, children[pick]);
      FillStep(reqs, parentOf, placed0, start, placed, batch, deferred, inDegreeBefore, readyBefore, pick, inDegree,
        ready);
      placed := placed + {pick};
      batch := batch + [pick];
      batchSet := batchSet + {pick};
      workflow := reqs[pick].workflow;
    }
  }

  lemma FillStep(reqs: Requirements, parentOf: Parents, placed0: set<Id>, start: set<Id>, placed: set<Id>,
                 batch: seq<Id>,
                 deferred: set<Id>, inDegree: map<Id, int>, ready: set<Id>, pick: Id,
                 inDegree': map<Id, int>, ready': set<Id>)
    requires parentOf.Keys <= reqs.Keys && WithinScope(parentOf) && start <= reqs.Keys
    requires FillState(reqs, parentOf, placed0, start, placed, batch, deferred, inDegree, ready)
    requires |batch| < BATCH_SIZE && ready <= parentOf.Keys && pick in ready - deferred
    requires IsPick(reqs, ready - deferred, WorkflowAfter(reqs, batch), pick)
    requires parentOf[pick].Some? ==> parentOf[pick].value !in batch
    requires var kids := Children(parentOf, pick);
             && kids <= inDegree.Keys
             && inDegree' == (map r | r in inDegree :: if r in kids then inDegree[r] - 1 else inDegree[r])
             && ready' == ready - {pick} + set c | c in kids && inDegree[c] == 1
    ensures FillState(reqs, parentOf, placed0, start, placed + {pick}, batch + [pick], deferred, inDegree', ready')
    ensures Elements(batch + [pick]) == Elements(batch) + {pick}
    ensures WorkflowAfter(reqs, batch + [pick]) == reqs[pick].workflow
  {
    PickIsGreedy(reqs, ready - deferred, start - Elements(batch), WorkflowAfter(reqs, batch), pick);
    ReleaseKeepsCounts(parentOf, placed, inDegree, ready, pick, inDegree', ready');
    GreedyAppend(reqs, start, batch, pick);
  }

  lemma GreedyAppend(reqs: Requirements, start: set<Id>, batch: seq<Id>, pick: Id)
    requires start <= reqs.Keys && Greedy(reqs, start, batch) && pick in start
    requires IsPick(reqs, start - Elements(batch), WorkflowAfter(reqs, batch), pick)
    ensures Greedy(reqs, start, batch + [pick])
    ensures Elements(batch + [pick]) == Elements(batch) + {pick}
  {
    var b := batch + [pick];
    assert Elements(b) == Elements(batch) + {pick};
    forall k: nat | k < |b| ensures GreedyAt(reqs, start, b, k) {
      if k < |batch| {
        assert b[..k] == batch[..k] && GreedyAt(reqs, start, batch, k);
      } else {
        assert b[..k] == batch;
      }
    }
  }

  // ---- what is promised, in terms of the register ----------------------------------------------------------

  /** The requirement is to be planned. */
  ghost predicate Qualifies(reqs: Requirements, status: string, stage: Option<string>, r: Id)
  {
    r in reqs && reqs[r].status == status && (stage.Some? ==> reqs[r].stage.text == stage.value)
  }

  /** `r` extends `p`, and both are to be planned. */
  ghost predicate Extending(reqs: Requirements, status: string, stage: Option<string>, r: Id, p: Id)
  {
    Qualifies(reqs, status, stage, r) && Qualifies(reqs, status, stage, p) && reqs[r].extendsFirst == Some(p)
  }

  ghost predicate ExtendsCycle(reqs: Requirements, status: string, stage: Option<string>, w: seq<Id>)
  {
    |w| >= 2 && w[0] == w[|w| - 1] && forall i | 0 <= i < |w| - 1 :: Extending(reqs, status, stage, w[i], w[i + 1])
  }

  /** Without a priority a requirement counts as MUST. */
  ghost predicate Must(p: Option<string>) { p == None || p == Some("MUST") }

  /** MUST, then SHOULD, then COULD, then any other. */
  ghost predicate MoreUrgent(p: Option<string>, q: Option<string>)
  {
    || (Must(p) && !Must(q))
    || (p == Some("SHOULD") && !Must(q) && q != Some("SHOULD"))
    || (p == Some("COULD") && !Must(q) && q != Some("SHOULD") && q != Some("COULD"))
  }

  /** Integer stages by number, then all others by text. */
  ghost predicate StageBefore(a: Stage, b: Stage)
  {
    match (a.kind, b.kind)
    case (Integer(m), Integer(n)) => m < n
    case (Integer(_), _) => true
    case (_, Integer(_)) => false
    case _ => a.text != b.text && StrLeq(a.text, b.text)
  }

  /** By stage, then by urgency, then by id. */
  ghost predicate PlannedBefore(reqs: Requirements, a: Id, b: Id)
    requires a in reqs && b in reqs
  {
    var x, y := reqs[a], reqs[b];
    StageBefore(x.stage, y.stage) ||
    (!StageBefore(y.stage, x.stage) &&
     (MoreUrgent(x.priority, y.priority) ||
      (!MoreUrgent(y.priority, x.priority) && a.name != b.name && StrLeq(a.name, b.name))))
  }

  /** `x` may be the `k`-th of batch `i`: it is not planned before that, and what it extends is in an earlier batch. */
  ghost predicate MayFollow(reqs: Requirements, status: string, stage: Option<string>, plan: seq<seq<Id>>, i: nat,
                            k: nat, x: Id)
    requires i < |plan| && k <= |plan[i]|
  {
    && Qualifies(reqs, status, stage, x)
    && (forall j | 0 <= j < i :: x !in plan[j]) && x !in plan[i][..k]
    && forall p | Extending(reqs, status, stage, x, p) :: exists j :: 0 <= j < i && p in plan[j]
  }

  /** The workflow to stay in: that of the pick before, if it has one; none at the start of a batch. */
  ghost predicate Continues(reqs: Requirements, plan: seq<seq<Id>>, i: nat, k: nat, x: Id)
    requires i < |plan| && k <= |plan[i]|
  {
    k > 0 && plan[i][k - 1] in reqs && x in reqs && reqs[plan[i][k - 1]].workflow != "" &&
    reqs[x].workflow == reqs[plan[i][k - 1]].workflow
  }

  /** The `k`-th of batch `i` is the first, in planning order, of those that may follow and continue the workflow, or of
      all that may follow if none of them does. */
  ghost predicate PickedWell(reqs: Requirements, status: string, stage: Option<string>, plan: seq<seq<Id>>, i: nat,
                             k: nat)
    requires i < |plan| && k < |plan[i]|
  {
    var p := plan[i][k];
    && MayFollow(reqs, status, stage, plan, i, k, p)
    && forall y | MayFollow(reqs, status, stage, plan, i, k, y) && y != p ::
         if Continues(reqs, plan, i, k, p) then Continues(reqs, plan, i, k, y) ==> PlannedBefore(reqs, p, y)
         else !Continues(reqs, plan, i, k, y) && PlannedBefore(reqs, p, y)
  }

  /** Each batch has one to four picks, all picked well, and fewer than four only if nothing may follow. */
  ghost predicate FilledWell(reqs: Requirements, status: string, stage: Option<string>, plan: seq<seq<Id>>, i: nat)
    requires i < |plan|
  {
    && 1 <= |plan[i]| <= 4
    && (forall k: nat | k < |plan[i]| :: PickedWell(reqs, status, stage, plan, i, k))
    && (|plan[i]| < 4 ==> forall x :: !MayFollow(reqs, status, stage, plan, i, |plan[i]|, x))
  }

  /** `build_plan`: it fails exactly on a cycle of Extends, never stalls, and otherwise returns the plan. */
  method BuildPlan(reqs: Requirements, status: string, stage: Option<string>) returns (r: PlanResult)
    ensures r == CycleError <==> exists w :: ExtendsCycle(reqs, status, stage, w)
    ensures r == CycleError || r.Planned?
    ensures r.Planned? ==>
              && (forall x :: Qualifies(reqs, status, stage, x) <==>
                              exists i :: 0 <= i < |r.batches| && x in r.batches[i])
              && (forall i, j, x | 0 <= i < |r.batches| && 0 <= j < |r.batches| && x in r.batches[i] &&
                                   x in r.batches[j] :: i == j)
              && (forall i, j, x, p | 0 <= i < |r.batches| && 0 <= j < |r.batches| && x in r.batches[i] &&
                                      p in r.batches[j] && Extending(reqs, status, stage, x, p) :: j < i)
              && (forall i: nat | i < |r.batches| :: FilledWell(reqs, status, stage, r.batches, i))
    ensures r.Planned? ==> IsPlan(reqs, ExtendsGraph(reqs, Scope(reqs, status, stage)), r.batches)
  {
    var scope := Scope(reqs, status, stage);
    var parentOf := BuildExtendsGraph(reqs, scope);
    CycleMeaning(reqs, status, stage);
    if scope == {} {
      AcyclicIffAllPlaced(ParentGraph(parentOf));
      PlanMeaning(reqs, status, stage, []);
      return Planned([]);
    }
    var order := TopoOrder(parentOf);
    if order.None? { return CycleError; }
    r := PlanBatches(reqs, parentOf);
    PlanMeaning(reqs, status, stage, r.batches);
  }

  /** The outer loop of `build_plan`. */
  method PlanBatches(reqs: Requirements, parentOf: Parents) returns (r: PlanResult)
    requires parentOf.Keys <= reqs.Keys && WithinScope(parentOf) && Acyclic(ParentGraph(parentOf))
    ensures r.Planned? && IsPlan(reqs, parentOf, r.batches)
  {
    var scope := parentOf.Keys;
    var inDegree, children := CountParents(parentOf);
    var ready := set k | k in scope && inDegree[k] == 0;
    var placed: set<Id> := {};
    var batches: seq<seq<Id>> := [];
    while |placed| < |scope|
      invariant Counts(parentOf, placed, inDegree, ready) && placed <= parentOf.Keys
      invariant GreedyBatches(reqs, parentOf, batches) && placed == InBatches(batches, |batches|)
      decreases scope - placed
    {
      var batch;
      ghost var placed0 := placed;
      MoreToPlace(parentOf, placed);
      batch, inDegree, ready, placed := FillBatch(reqs, parentOf, children, inDegree, ready, placed);
      BatchIsProgress(reqs, parentOf, placed0, batch);
      if batch == [] { return Stalled(scope - placed); }
      AppendBatch(reqs, parentOf, batches, batch);
      batches := batches + [batch];
    }
    AllPlaced(scope, placed);
    return Planned(batches);
  }

  /** The planner's graph has an edge exactly where one requirement to be planned extends another. */
  lemma EdgeMeaning(reqs: Requirements, status: string, stage: Option<string>, r: Id, p: Id)
    ensures r in Scope(reqs, status, stage) <==> Qualifies(reqs, status, stage, r)
    ensures var parentOf := ExtendsGraph(reqs, Scope(reqs, status, stage));
            Extending(reqs, status, stage, r, p) <==> r in parentOf && parentOf[r] == Some(p)
  {
  }

  lemma CycleMeaning(reqs: Requirements, status: string, stage: Option<string>)
    ensures var parentOf := ExtendsGraph(reqs, Scope(reqs, status, stage));
            !Acyclic(ParentGraph(parentOf)) <==> exists w :: ExtendsCycle(reqs, status, stage, w)
  {
    var parentOf := ExtendsGraph(reqs, Scope(reqs, status, stage));
    var g := ParentGraph(parentOf);
    forall w ensures ClosedWalk(g, w) <==> ExtendsCycle(reqs, status, stage, w) {
      forall i | 0 <= i < |w| - 1
        ensures w[i + 1] in Succ(g, w[i]) <==> Extending(reqs, status, stage, w[i], w[i + 1])
      {
        EdgeMeaning(reqs, status, stage, w[i], w[i + 1]);
      }
      if ExtendsCycle(reqs, status, stage, w) {
        forall i | 0 <= i < |w| - 1 ensures w[i + 1] in Succ(g, w[i]) {
          assert Extending(reqs, status, stage, w[i], w[i + 1]);
        }
      }
    }
  }

  /** The sort key of the planner compares as promised. */
  lemma PlanOrder(reqs: Requirements, a: Id, b: Id)
    requires a in reqs && b in reqs
    ensures KeyLeq(PlanKey(reqs[a], a), PlanKey(reqs[b], b)) <==> a == b || PlannedBefore(reqs, a, b)
  {
    StrTotal(a.name, b.name);
    StrTotal(reqs[a].stage.text, reqs[b].stage.text);
    RankMeaning(reqs[a].priority, reqs[b].priority);
  }

  function RankOf(p: Option<string>): int { match p case None => PriorityRank("MUST") case Some(s) => PriorityRank(s) }

  lemma RankMeaning(p: Option<string>, q: Option<string>)
    ensures RankOf(p) < RankOf(q) <==> MoreUrgent(p, q)
    ensures RankOf(p) == RankOf(q) <==> !MoreUrgent(p, q) && !MoreUrgent(q, p)
  {
  }

  lemma BatchIsProgress(reqs: Requirements, parentOf: Parents, placed: set<Id>, b: seq<Id>)
    requires parentOf.Keys <= reqs.Keys && Eligible(parentOf, parentOf.Keys - placed) != {}
    requires GreedyBatch(reqs, Eligible(parentOf, parentOf.Keys - placed), b)
    ensures b != [] && Elements(b) <= parentOf.Keys - placed &&
            parentOf.Keys - (placed + Elements(b)) < parentOf.Keys - placed
  {
    var e :| e in Eligible(parentOf, parentOf.Keys - placed);
    assert b == [] ==> e !in Elements(b);
    assert b[0] in Elements(b) && b[0] in parentOf.Keys - placed;
  }

  lemma AppendBatch(reqs: Requirements, parentOf: Parents, plan: seq<seq<Id>>, b: seq<Id>)
    requires parentOf.Keys <= reqs.Keys && GreedyBatches(reqs, parentOf, plan) && b != []
    requires GreedyBatch(reqs, Eligible(parentOf, Left(parentOf, plan, |plan|)), b)
    ensures GreedyBatches(reqs, parentOf, plan + [b])
    ensures InBatches(plan + [b], |plan| + 1) == InBatches(plan, |plan|) + Elements(b)
  {
    var q := plan + [b];
    forall i: nat | i < |q| ensures BatchAt(reqs, parentOf, q, i) {
      SameBatches(plan, q, i);
      if i < |plan| { assert BatchAt(reqs, parentOf, plan, i); }
    }
    SameBatches(plan, q, |plan|);
  }

  lemma {:induction false} SameBatches(p: seq<seq<Id>>, q: seq<seq<Id>>, i: nat)
    requires i <= |p| <= |q| && p == q[..|p|]
    ensures InBatches(q, i) == InBatches(p, i)
  {
    if i > 0 { SameBatches(p, q, i - 1); }
  }

  lemma MoreToPlace(parentOf: Parents, placed: set<Id>)
    requires WithinScope(parentOf) && Acyclic(ParentGraph(parentOf)) && |placed| < |parentOf.Keys|
    ensures Eligible(parentOf, parentOf.Keys - placed) != {}
  {
    if parentOf.Keys <= placed { SubsetSmaller(parentOf.Keys, placed); }
    var k :| k in parentOf.Keys && k !in placed;
    assert k in parentOf.Keys - placed;
    SomethingIsEligible(parentOf, parentOf.Keys - placed);
  }

  lemma AllPlaced(scope: set<Id>, placed: set<Id>)
    requires placed <= scope && |placed| >= |scope|
    ensures placed == scope
  {
    if placed != scope { StrictSubsetSmaller(placed, scope); }
  }

  /** What is left before batch `i`. */
  lemma {:induction false} LeftMeaning(parentOf: Parents, plan: seq<seq<Id>>, i: nat, x: Id)
    requires i <= |plan|
    ensures x in Left(parentOf, plan, i) <==> x in parentOf && forall j | 0 <= j < i :: x !in plan[j]
  {
    if i > 0 { LeftMeaning(parentOf, plan, i - 1, x); }
  }

  /** Those that may follow are those eligible when the batch was begun and not picked yet. */
  lemma MayFollowMeaning(reqs: Requirements, status: string, stage: Option<string>, plan: seq<seq<Id>>, i: nat, k: nat,
                         x: Id)
    requires i < |plan| && k <= |plan[i]|
    ensures var parentOf := ExtendsGraph(reqs, Scope(reqs, status, stage));
            MayFollow(reqs, status, stage, plan, i, k, x) <==>
            x in Eligible(parentOf, Left(parentOf, plan, i)) - Elements(plan[i][..k])
  {
    var parentOf := ExtendsGraph(reqs, Scope(reqs, status, stage));
    LeftMeaning(parentOf, plan, i, x);
    if x in parentOf && parentOf[x].Some? {
      LeftMeaning(parentOf, plan, i, parentOf[x].value);
      EdgeMeaning(reqs, status, stage, x, parentOf[x].value);
    }
    EdgeMeaning(reqs, status, stage, x, x);
    forall p | Extending(reqs, status, stage, x, p) ensures x in parentOf && parentOf[x] == Some(p) {
      EdgeMeaning(reqs, status, stage, x, p);
    }
  }

  lemma PickMeaning(reqs: Requirements, status: string, stage: Option<string>, plan: seq<seq<Id>>, i: nat, k: nat)
    requires i < |plan| && k < |plan[i]|
    requires var parentOf := ExtendsGraph(reqs, Scope(reqs, status, stage));
             var eligible := Eligible(parentOf, Left(parentOf, plan, i));
             Elements(plan[i]) <= eligible && GreedyAt(reqs, eligible, plan[i], k)
    ensures PickedWell(reqs, status, stage, plan, i, k)
  {
    var parentOf := ExtendsGraph(reqs, Scope(reqs, status, stage));
    var eligible := Eligible(parentOf, Left(parentOf, plan, i));
    var b := plan[i];
    assert Elements(b[..k]) <= Elements(b);
    var s, w := eligible - Elements(b[..k]), WorkflowAfter(reqs, b[..k]);
    forall x ensures MayFollow(reqs, status, stage, plan, i, k, x) <==> x in s {
      MayFollowMeaning(reqs, status, stage, plan, i, k, x);
    }
    ClusterMeaning(reqs, eligible, plan, i, k);
    PickIsFirst(reqs, plan, i, k, s, w);
  }

  lemma ClusterMeaning(reqs: Requirements, eligible: set<Id>, plan: seq<seq<Id>>, i: nat, k: nat)
    requires i < |plan| && k < |plan[i]| && Elements(plan[i]) <= eligible <= reqs.Keys
    requires Elements(plan[i][..k]) <= Elements(plan[i])
    ensures var s, w := eligible - Elements(plan[i][..k]), WorkflowAfter(reqs, plan[i][..k]);
            forall x | x in s :: x in Cluster(reqs, s, w) <==> Continues(reqs, plan, i, k, x)
  {
    var b := plan[i];
    assert k > 0 ==> b[..k][|b[..k]| - 1] == b[k - 1] && b[k - 1] in Elements(b);
  }

  lemma PickIsFirst(reqs: Requirements, plan: seq<seq<Id>>, i: nat, k: nat, s: set<Id>, w: string)
    requires i < |plan| && k < |plan[i]| && s <= reqs.Keys && IsPick(reqs, s, w, plan[i][k])
    requires forall x | x in s :: x in Cluster(reqs, s, w) <==> Continues(reqs, plan, i, k, x)
    ensures plan[i][k] in s
    ensures forall y | y in s && y != plan[i][k] ::
              if Continues(reqs, plan, i, k, plan[i][k])
              then Continues(reqs, plan, i, k, y) ==> PlannedBefore(reqs, plan[i][k], y)
              else !Continues(reqs, plan, i, k, y) && PlannedBefore(reqs, plan[i][k], y)
  {
    var p := plan[i][k];
    assert p in Candidates(reqs, s, w) && Candidates(reqs, s, w) <= s;
    forall y | y in s && y != p
      ensures if Continues(reqs, plan, i, k, p) then Continues(reqs, plan, i, k, y) ==> PlannedBefore(reqs, p, y)
              else !Continues(reqs, plan, i, k, y) && PlannedBefore(reqs, p, y)
    {
      PlanOrder(reqs, p, y);
      assert y in Candidates(reqs, s, w) ==> KeyLeq(PlanKeys(reqs)[p], PlanKeys(reqs)[y]);
      assert y in Cluster(reqs, s, w) ==> p in Cluster(reqs, s, w);
    }
  }

  lemma FilledMeaning(reqs: Requirements, status: string, stage: Option<string>, plan: seq<seq<Id>>, i: nat)
    requires i < |plan| && BatchAt(reqs, ExtendsGraph(reqs, Scope(reqs, status, stage)), plan, i)
    ensures FilledWell(reqs, status, stage, plan, i)
  {
    var parentOf := ExtendsGraph(reqs, Scope(reqs, status, stage));
    var eligible := Eligible(parentOf, Left(parentOf, plan, i));
    forall k: nat | k < |plan[i]| ensures PickedWell(reqs, status, stage, plan, i, k) {
      assert GreedyAt(reqs, eligible, plan[i], k);
      PickMeaning(reqs, status, stage, plan, i, k);
    }
    if |plan[i]| < 4 {
      forall x ensures !MayFollow(reqs, status, stage, plan, i, |plan[i]|, x) {
        MayFollowMeaning(reqs, status, stage, plan, i, |plan[i]|, x);
        assert plan[i][..|plan[i]|] == plan[i];
      }
    }
  }

  /** What the plan is, said of the register alone. */
  lemma PlanMeaning(reqs: Requirements, status: string, stage: Option<string>, plan: seq<seq<Id>>)
    requires IsPlan(reqs, ExtendsGraph(reqs, Scope(reqs, status, stage)), plan)
    ensures forall x :: Qualifies(reqs, status, stage, x) <==> exists i :: 0 <= i < |plan| && x in plan[i]
    ensures forall i, j, x | 0 <= i < |plan| && 0 <= j < |plan| && x in plan[i] && x in plan[j] :: i == j
    ensures forall i, j, x, p | 0 <= i < |plan| && 0 <= j < |plan| && x in plan[i] && p in plan[j] &&
                                Extending(reqs, status, stage, x, p) :: j < i
    ensures forall i: nat | i < |plan| :: FilledWell(reqs, status, stage, plan, i)
  {
    forall i: nat | i < |plan| ensures FilledWell(reqs, status, stage, plan, i) {
      FilledMeaning(reqs, status, stage, plan, i);
    }
    forall x ensures Qualifies(reqs, status, stage, x) <==> exists i :: 0 <= i < |plan| && x in plan[i] {
      AllArePlanned(reqs, status, stage, plan, x);
    }
    forall i, j, x | 0 <= i < |plan| && 0 <= j < |plan| && x in plan[i] && x in plan[j] ensures i == j {
      PickedOnce(reqs, status, stage, plan, i, j, x);
      PickedOnce(reqs, status, stage, plan, j, i, x);
    }
    forall i, j, x, p | 0 <= i < |plan| && 0 <= j < |plan| && x in plan[i] && p in plan[j] &&
                        Extending(reqs, status, stage, x, p) ensures j < i
    {
      var k: nat :| k < |plan[i]| && plan[i][k] == x;
      assert FilledWell(reqs, status, stage, plan, i) && PickedWell(reqs, status, stage, plan, i, k);
      var h :| 0 <= h < i && p in plan[h];
      PickedOnce(reqs, status, stage, plan, h, j, p);
    }
  }

  /** Nothing planned comes again in a later batch. */
  lemma PickedOnce(reqs: Requirements, status: string, stage: Option<string>, plan: seq<seq<Id>>, i: nat, j: nat, x: Id)
    requires forall i: nat | i < |plan| :: FilledWell(reqs, status, stage, plan, i)
    requires i < |plan| && j < |plan| && x in plan[i] && x in plan[j]
    ensures j <= i
  {
    var k: nat :| k < |plan[j]| && plan[j][k] == x;
    assert FilledWell(reqs, status, stage, plan, j) && PickedWell(reqs, status, stage, plan, j, k);
  }

  lemma AllArePlanned(reqs: Requirements, status: string, stage: Option<string>, plan: seq<seq<Id>>, x: Id)
    requires forall i: nat | i < |plan| :: FilledWell(reqs, status, stage, plan, i)
    requires Left(ExtendsGraph(reqs, Scope(reqs, status, stage)), plan, |plan|) == {}
    ensures Qualifies(reqs, status, stage, x) <==> exists i :: 0 <= i < |plan| && x in plan[i]
  {
    LeftMeaning(ExtendsGraph(reqs, Scope(reqs, status, stage)), plan, |plan|, x);
    if i :| 0 <= i < |plan| && x in plan[i] {
      var k: nat :| k < |plan[i]| && plan[i][k] == x;
      assert FilledWell(reqs, status, stage, plan, i) && PickedWell(reqs, status, stage, plan, i, k);
    }
  }
}
