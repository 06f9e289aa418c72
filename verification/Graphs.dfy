/** Finite directed graphs of ids, the levels Kahn's algorithm peels off, walks and cycles. */
module Graphs {
  import opened Orders

  /** `g[x]` holds the ids that must come before `x`. */
  type Graph = map<Id, set<Id>>

  function Succ(g: Graph, u: Id): set<Id> { if u in g then g[u] else {} }

  predicate Closed(g: Graph) { forall k | k in g :: g[k] <= g.Keys }

  ghost predicate IsWalk(g: Graph, w: seq<Id>)
  {
    |w| > 0 && forall i | 0 <= i < |w| - 1 :: w[i + 1] in Succ(g, w[i])
  }

  ghost predicate WalkBetween(g: Graph, w: seq<Id>, u: Id, v: Id)
  {
    IsWalk(g, w) && w[0] == u && w[|w| - 1] == v
  }

  ghost predicate Reaches(g: Graph, u: Id, v: Id) { exists w :: WalkBetween(g, w, u, v) }

  /** A closed walk: at least one edge, ending where it starts. */
  ghost predicate ClosedWalk(g: Graph, w: seq<Id>)
  {
    |w| >= 2 && IsWalk(g, w) && w[0] == w[|w| - 1]
  }

  ghost predicate Acyclic(g: Graph) { forall w :: !ClosedWalk(g, w) }

  /** A simple cycle: a closed walk whose ids, but for the repeated end, are distinct. */
  ghost predicate SimpleCycle(g: Graph, w: seq<Id>)
  {
    ClosedWalk(g, w) && forall i, j | 0 <= i < j < |w| - 1 :: w[i] != w[j]
  }

  ghost predicate ReachesCycle(g: Graph, u: Id)
  {
    exists w :: ClosedWalk(g, w) && Reaches(g, u, w[0])
  }

  /** The ids placed by the first `n` rounds of levelling. */
  function Placed(g: Graph, n: nat): (s: set<Id>)
    ensures s <= g.Keys
  {
    if n == 0 then {} else set k | k in g && g[k] <= Placed(g, n - 1)
  }

  /** `k` is placed in round `n`, counting from 1. */
  predicate InWave(g: Graph, k: Id, n: nat)
  {
    n >= 1 && k in Placed(g, n) && k !in Placed(g, n - 1)
  }

  function Final(g: Graph): set<Id> { Placed(g, |g|) }

  lemma {:induction false} PlacedGrows(g: Graph, n: nat)
    ensures Placed(g, n) <= Placed(g, n + 1)
  {
    if n > 0 { PlacedGrows(g, n - 1); }
  }

  lemma {:induction false} PlacedMonotone(g: Graph, m: nat, n: nat)
    requires m <= n
    ensures Placed(g, m) <= Placed(g, n)
    decreases n - m
  {
    if m < n { PlacedGrows(g, m); PlacedMonotone(g, m + 1, n); }
  }

  lemma {:induction false} PlacedStable(g: Graph, m: nat, n: nat)
    requires m <= n && Placed(g, m + 1) == Placed(g, m)
    ensures Placed(g, n) == Placed(g, m)
    decreases n
  {
    if m < n {
      PlacedStable(g, m, n - 1);
      assert Placed(g, n) == Placed(g, m + 1);
    }
  }

  lemma {:induction false} PlacedStrictOrStable(g: Graph, n: nat)
    ensures |Placed(g, n)| >= n || Placed(g, n + 1) == Placed(g, n)
  {
    if n > 0 {
      PlacedStrictOrStable(g, n - 1);
      PlacedGrows(g, n - 1);
      if Placed(g, n) == Placed(g, n - 1) {
        PlacedStable(g, n - 1, n + 1);
      } else {
        StrictSubsetSmaller(Placed(g, n - 1), Placed(g, n));
      }
    }
  }

  lemma StrictSubsetSmaller(a: set<Id>, b: set<Id>)
    requires a < b
    ensures |a| < |b|
  {
    assert b == a + (b - a);
    assert |b| == |a| + |b - a|;
  }

  lemma SubsetSmaller(a: set<Id>, b: set<Id>)
    requires a <= b
    ensures |a| <= |b|
  {
    if a != b { StrictSubsetSmaller(a, b); }
  }

  /** Levelling stops after at most as many rounds as there are ids. */
  lemma FinalIsFixpoint(g: Graph, n: nat)
    ensures Placed(g, |g| + 1) == Final(g)
    ensures Placed(g, n) <= Final(g)
    ensures |g| <= n ==> Placed(g, n) == Final(g)
  {
    PlacedStrictOrStable(g, |g|);
    PlacedGrows(g, |g|);
    assert |g.Keys| == |g|;
    if Placed(g, |g| + 1) != Final(g) {
      StrictSubsetSmaller(Placed(g, |g|), Placed(g, |g| + 1));
      SubsetSmaller(Placed(g, |g| + 1), g.Keys);
      assert false;
    }
    if n >= |g| { PlacedStable(g, |g|, n); } else { PlacedMonotone(g, n, |g|); }
  }

  /** Whatever has all its prerequisites placed at the end is placed itself. */
  lemma FinalIntro(g: Graph, k: Id)
    requires k in g && g[k] <= Final(g)
    ensures k in Final(g)
  {
    FinalIsFixpoint(g, 0);
  }

  /** A walk that starts in round `n` steps down one round at each edge, so it has at most `n` ids. */
  lemma {:induction false} WalkDescends(g: Graph, w: seq<Id>, n: nat)
    requires IsWalk(g, w) && w[0] in Placed(g, n)
    ensures |w| <= n && w[|w| - 1] in Placed(g, n + 1 - |w|)
    decreases |w|
  {
    if |w| > 1 {
      assert w[1] in Placed(g, n - 1);
      assert IsWalk(g, w[1..]) by {
        forall i | 0 <= i < |w[1..]| - 1 ensures w[1..][i + 1] in Succ(g, w[1..][i]) {
          assert w[i + 2] in Succ(g, w[i + 1]);
        }
      }
      WalkDescends(g, w[1..], n - 1);
    }
  }

  lemma {:induction false} NoPlacedCycle(g: Graph, w: seq<Id>, n: nat)
    requires ClosedWalk(g, w)
    ensures w[0] !in Placed(g, n)
  {
    if w[0] in Placed(g, n) {
      WalkDescends(g, w, n);
      NoPlacedCycle(g, w, n + 1 - |w|);
    }
  }

  /** An id placed in round `n` starts a prerequisite chain of `n` ids. */
  lemma {:induction false} LongestChain(g: Graph, k: Id, n: nat) returns (w: seq<Id>)
    requires InWave(g, k, n)
    ensures IsWalk(g, w) && w[0] == k && |w| == n
    decreases n
  {
    if n == 1 {
      w := [k];
    } else {
      assert !(g[k] <= Placed(g, n - 2));
      var p :| p in g[k] && p !in Placed(g, n - 2);
      var rest := LongestChain(g, p, n - 1);
      w := [k] + rest;
      forall i | 0 <= i < |w| - 1 ensures w[i + 1] in Succ(g, w[i]) {
        if i > 0 { assert rest[i] in Succ(g, rest[i - 1]); }
      }
    }
  }

  /** From an unplaced id one can walk through unplaced ids for as long as one likes. */
  lemma {:induction false} UnplacedWalk(g: Graph, u: Id, n: nat) returns (w: seq<Id>)
    requires Closed(g) && u in g && u !in Final(g) && n >= 1
    ensures IsWalk(g, w) && w[0] == u && |w| == n
    ensures forall i | 0 <= i < n :: w[i] in g && w[i] !in Final(g)
    decreases n
  {
    if n == 1 {
      w := [u];
    } else {
      if g[u] <= Final(g) { FinalIntro(g, u); }
      var p :| p in g[u] && p !in Final(g);
      var rest := UnplacedWalk(g, p, n - 1);
      w := [u] + rest;
      forall i | 0 <= i < |w| - 1 ensures w[i + 1] in Succ(g, w[i]) {
        if i > 0 { assert rest[i] in Succ(g, rest[i - 1]); }
      }
    }
  }

  lemma {:induction false} DistinctFits(w: seq<Id>, s: set<Id>)
    requires forall i | 0 <= i < |w| :: w[i] in s
    requires forall i, j | 0 <= i < j < |w| :: w[i] != w[j]
    ensures |w| <= |s|
  {
    if w != [] {
      var last := w[|w| - 1];
      DistinctFits(w[..|w| - 1], s - {last});
      assert |s - {last}| == |s| - 1;
    }
  }

  lemma UnplacedReachesCycle(g: Graph, u: Id)
    requires Closed(g) && u in g && u !in Final(g)
    ensures ReachesCycle(g, u)
  {
    var w := UnplacedWalk(g, u, |g| + 1);
    assert |g.Keys| == |g|;
    if forall i, j | 0 <= i < j < |w| :: w[i] != w[j] {
      DistinctFits(w, g.Keys);
      assert false;
    }
    var i, j :| 0 <= i < j < |w| && w[i] == w[j];
    var c := w[i..j + 1];
    assert ClosedWalk(g, c);
    assert WalkBetween(g, w[..i + 1], u, c[0]);
  }

  lemma ReachingCycleUnplaced(g: Graph, u: Id)
    requires ReachesCycle(g, u)
    ensures u !in Final(g)
  {
    if u in Final(g) {
      var w :| ClosedWalk(g, w) && Reaches(g, u, w[0]);
      var p :| WalkBetween(g, p, u, w[0]);
      WalkDescends(g, p, |g|);
      NoPlacedCycle(g, w, |g| + 1 - |p|);
    }
  }

  /** An id stays unplaced exactly when a cycle can be reached from it. */
  lemma UnplacedIffReachesCycle(g: Graph, u: Id)
    requires Closed(g) && u in g
    ensures u !in Final(g) <==> ReachesCycle(g, u)
  {
    if u !in Final(g) { UnplacedReachesCycle(g, u); }
    if ReachesCycle(g, u) { ReachingCycleUnplaced(g, u); }
  }

  lemma AllPlacedIsAcyclic(g: Graph, w: seq<Id>)
    requires Final(g) == g.Keys
    ensures !ClosedWalk(g, w)
  {
    if ClosedWalk(g, w) {
      assert w[1] in Succ(g, w[0]);
      NoPlacedCycle(g, w, |g|);
    }
  }

  lemma SomeUnplacedIsCyclic(g: Graph, u: Id)
    requires Closed(g) && u in g && u !in Final(g)
    ensures !Acyclic(g)
  {
    UnplacedReachesCycle(g, u);
    var w :| ClosedWalk(g, w) && Reaches(g, u, w[0]);
  }

  /** Levelling places every id exactly when there is no cycle. */
  lemma AcyclicIffAllPlaced(g: Graph)
    requires Closed(g)
    ensures Acyclic(g) <==> Final(g) == g.Keys
  {
    if Final(g) == g.Keys {
      forall w ensures !ClosedWalk(g, w) { AllPlacedIsAcyclic(g, w); }
    } else {
      assert Final(g) <= g.Keys;
      var u :| u in g && u !in Final(g);
      SomeUnplacedIsCyclic(g, u);
    }
  }

  /** Every placed id has a round. */
  lemma {:induction false} WaveOf(g: Graph, k: Id, n: nat) returns (r: nat)
    requires k in Placed(g, n)
    ensures InWave(g, k, r) && r <= n
  {
    if k in Placed(g, n - 1) { r := WaveOf(g, k, n - 1); } else { r := n; }
  }

  /** A numbering that puts every prerequisite strictly before what needs it. */
  ghost predicate RespectsPrerequisites(g: Graph, level: map<Id, nat>)
  {
    g.Keys <= level.Keys &&
    forall k, p | k in g && p in g[k] :: p in level && level[p] < level[k]
  }

  /** The round of an id is the length of its longest prerequisite chain, and no numbering beats it. */
  lemma WaveIsLongestChain(g: Graph, k: Id, n: nat)
    requires InWave(g, k, n)
    ensures exists w :: IsWalk(g, w) && w[0] == k && |w| == n
    ensures forall w | IsWalk(g, w) && w[0] == k :: |w| <= n
    ensures forall level | RespectsPrerequisites(g, level) && Closed(g) :: n <= level[k] + 1
  {
    var w := LongestChain(g, k, n);
    forall w' | IsWalk(g, w') && w'[0] == k ensures |w'| <= n { WalkDescends(g, w', n); }
    forall level | RespectsPrerequisites(g, level) && Closed(g) ensures n <= level[k] + 1 {
      LevelsAboveChain(g, level, w);
    }
  }

  lemma {:induction false} LevelsAboveChain(g: Graph, level: map<Id, nat>, w: seq<Id>)
    requires Closed(g) && RespectsPrerequisites(g, level) && IsWalk(g, w) && w[0] in g
    ensures |w| <= level[w[0]] + 1
    decreases |w|
  {
    if |w| > 1 {
      assert w[1] in Succ(g, w[0]);
      forall i | 0 <= i < |w[1..]| - 1 ensures w[1..][i + 1] in Succ(g, w[1..][i]) {
        assert w[i + 2] in Succ(g, w[i + 1]);
      }
      LevelsAboveChain(g, level, w[1..]);
    }
  }

  /** The graph with one more entry, empty, for every id that is only mentioned. */
  function Completed(g: Graph): (c: Graph)
    ensures Closed(c) && g.Keys <= c.Keys
    ensures forall u :: Succ(c, u) == Succ(g, u)
  {
    var all := g.Keys + (set k, p | k in g && p in g[k] :: p);
    map u | u in all :: Succ(g, u)
  }

  /** Removing ids that count as built never delays another id. */
  lemma {:induction false} RestrictionNeverDelays(g: Graph, h: Graph, n: nat)
    requires h.Keys <= g.Keys && forall k | k in h :: h[k] == g[k] * h.Keys
    ensures Placed(g, n) * h.Keys <= Placed(h, n)
  {
    if n > 0 { RestrictionNeverDelays(g, h, n - 1); }
  }

  // ---- reachability ------------------------------------------------------------------------------

  /** Reached by at least one edge. */
  ghost predicate StrictlyReaches(g: Graph, u: Id, v: Id)
  {
    exists p :: p in Succ(g, u) && Reaches(g, p, v)
  }

  lemma ReachesSelf(g: Graph, u: Id)
    ensures Reaches(g, u, u)
  {
    assert WalkBetween(g, [u], u, u);
  }

  lemma ReachesStep(g: Graph, u: Id, v: Id, x: Id)
    requires Reaches(g, u, v) && x in Succ(g, v)
    ensures Reaches(g, u, x)
  {
    var w :| WalkBetween(g, w, u, v);
    assert WalkBetween(g, w + [x], u, x);
  }

  /** A set closed under edges contains whatever its members reach. */
  lemma {:induction false} ClosedSetAbsorbs(g: Graph, s: set<Id>, w: seq<Id>)
    requires (forall u | u in s :: Succ(g, u) <= s) && IsWalk(g, w) && w[0] in s
    ensures w[|w| - 1] in s
    decreases |w|
  {
    if |w| > 1 {
      assert w[1] in Succ(g, w[0]);
      forall i | 0 <= i < |w[1..]| - 1 ensures w[1..][i + 1] in Succ(g, w[1..][i]) {
        assert w[i + 2] in Succ(g, w[i + 1]);
      }
      ClosedSetAbsorbs(g, s, w[1..]);
    }
  }

  lemma ClosedSetAbsorbsReach(g: Graph, s: set<Id>, u: Id, v: Id)
    requires (forall x | x in s :: Succ(g, x) <= s) && u in s && Reaches(g, u, v)
    ensures v in s
  {
    var w :| WalkBetween(g, w, u, v);
    ClosedSetAbsorbs(g, s, w);
  }

  ghost predicate IsReverse(g: Graph, r: Graph)
  {
    forall u, v :: v in Succ(r, u) <==> u in Succ(g, v)
  }

  function Reversed(w: seq<Id>): (r: seq<Id>)
    ensures |r| == |w| && forall i | 0 <= i < |w| :: r[i] == w[|w| - 1 - i]
  {
    seq(|w|, i requires 0 <= i < |w| => w[|w| - 1 - i])
  }

  lemma StrictWalk(g: Graph, u: Id, v: Id)
    ensures StrictlyReaches(g, u, v) <==> exists w :: WalkBetween(g, w, u, v) && |w| >= 2
  {
    if StrictlyReaches(g, u, v) {
      var p :| p in Succ(g, u) && Reaches(g, p, v);
      var w :| WalkBetween(g, w, p, v);
      var x := [u] + w;
      forall i | 0 <= i < |x| - 1 ensures x[i + 1] in Succ(g, x[i]) {
        if i > 0 { assert w[i] in Succ(g, w[i - 1]); }
      }
      assert WalkBetween(g, x, u, v);
    }
    if w :| WalkBetween(g, w, u, v) && |w| >= 2 {
      var t := w[1..];
      forall i | 0 <= i < |t| - 1 ensures t[i + 1] in Succ(g, t[i]) { assert w[i + 2] in Succ(g, w[i + 1]); }
      assert WalkBetween(g, t, w[1], v);
    }
  }

  lemma ReverseStrict(g: Graph, r: Graph, u: Id, v: Id)
    requires IsReverse(g, r) && StrictlyReaches(r, u, v)
    ensures StrictlyReaches(g, v, u)
  {
    StrictWalk(r, u, v);
    var w :| WalkBetween(r, w, u, v) && |w| >= 2;
    var x := Reversed(w);
    forall i | 0 <= i < |x| - 1 ensures x[i + 1] in Succ(g, x[i]) {
      var j := |w| - 2 - i;
      assert w[j + 1] in Succ(r, w[j]);
    }
    assert WalkBetween(g, x, v, u);
    StrictWalk(g, v, u);
  }

}
