/** The shared issue queue: merging a local copy into the pushed one, and a protocol of many workspaces. */
module QueueSync {
  import opened Orders
  import opened Registry

  /** What a queue item is keyed by. */
  datatype Identity = Issue(id: string) | Batch(stage: Option<string>, batch: Option<string>)

  datatype Item = Item(issue: Option<string>, stage: Option<string>, batch: Option<string>, body: string)

  /** `items` is None when the key is absent; `rest` are the other top-level keys. */
  datatype Queue = Queue(items: Option<seq<Item>>, rest: map<string, string>)

  /** `_item_identity`. */
  function IdentityOf(item: Item): Identity
  {
    if item.issue.Some? then Issue(item.issue.value) else Batch(item.stage, item.batch)
  }

  function ItemsIn(q: Queue): seq<Item> { if q.items.Some? then q.items.value else [] }

  function Identities(items: seq<Item>): set<Identity> { set x | x in items :: IdentityOf(x) }

  /** The items whose identity is not in `ids`. */
  function Excluding(items: seq<Item>, ids: set<Identity>): seq<Item>
  {
    if items == [] then [] else
    (if IdentityOf(items[0]) in ids then [] else [items[0]]) + Excluding(items[1..], ids)
  }

  /** `_merge_items_by_identity`. */
  function Merge(origin: Queue, local: Queue): Queue
  {
    origin.(items := Some(ItemsIn(origin) + Excluding(ItemsIn(local), Identities(ItemsIn(origin)))))
  }

  /** All copies of one identity, in order. */
  function CopiesOf(items: seq<Item>, i: Identity): seq<Item>
  {
    if items == [] then [] else
    (if IdentityOf(items[0]) == i then [items[0]] else []) + CopiesOf(items[1..], i)
  }

  lemma {:induction false} ExcludingMeaning(items: seq<Item>, ids: set<Identity>, i: Identity)
    ensures CopiesOf(Excluding(items, ids), i) == if i in ids then [] else CopiesOf(items, i)
  {
    if items != [] {
      ExcludingMeaning(items[1..], ids, i);
      var rest := Excluding(items[1..], ids);
      assert [] + rest == rest && ([items[0]] + rest)[1..] == rest;
    }
  }

  lemma Regroup(a: seq<Item>, b: seq<Item>, c: seq<Item>)
    ensures a + (b + c) == a + b + c
  {
  }

  lemma {:induction false} CopiesOfConcat(a: seq<Item>, b: seq<Item>, i: Identity)
    ensures CopiesOf(a + b, i) == CopiesOf(a, i) + CopiesOf(b, i)
  {
    if a == [] {
      assert a + b == b;
    } else {
      CopiesOfConcat(a[1..], b, i);
      assert (a + b)[1..] == a[1..] + b && (a + b)[0] == a[0];
      Regroup(if IdentityOf(a[0]) == i then [a[0]] else [], CopiesOf(a[1..], i), CopiesOf(b, i));
    }
  }

  lemma {:induction false} CopiesExist(items: seq<Item>, i: Identity)
    ensures i in Identities(items) <==> CopiesOf(items, i) != []
  {
    if items != [] {
      CopiesExist(items[1..], i);
      assert items == [items[0]] + items[1..];
      assert Identities(items) == {IdentityOf(items[0])} + Identities(items[1..]);
    }
  }

  // ---- what is promised, item by item ----------------------------------------------------------------------

  /** The two items are about the same thing: the same issue, or, where neither has an issue, the same batch of the same
      stage. */
  ghost predicate Matches(a: Item, b: Item)
  {
    || (a.issue.Some? && b.issue.Some? && a.issue.value == b.issue.value)
    || (a.issue.None? && b.issue.None? && a.stage == b.stage && a.batch == b.batch)
  }

  lemma IdentityMeaning(a: Item, b: Item)
    ensures IdentityOf(a) == IdentityOf(b) <==> Matches(a, b)
  {
  }

  ghost predicate Known(items: seq<Item>, x: Item) { exists y :: y in items && Matches(x, y) }

  lemma KnownMeaning(items: seq<Item>, x: Item)
    ensures Known(items, x) <==> IdentityOf(x) in Identities(items)
  {
    if y :| y in items && IdentityOf(y) == IdentityOf(x) { IdentityMeaning(x, y); }
    if y :| y in items && Matches(x, y) { IdentityMeaning(x, y); }
  }

  /** `kept` are the items of `items` that `others` does not know, unchanged and in order. */
  ghost predicate KeepsUnknown(kept: seq<Item>, items: seq<Item>, others: seq<Item>)
  {
    exists at: seq<nat> :: Increasing(at) && (forall j: nat :: j in at <==> UnknownAt(items, others, j)) &&
                           PickedAt(kept, items, at)
  }

  ghost predicate UnknownAt(items: seq<Item>, others: seq<Item>, j: nat) { j < |items| && !Known(others, items[j]) }

  ghost predicate PickedAt(kept: seq<Item>, items: seq<Item>, at: seq<nat>)
  {
    |kept| == |at| && forall k | 0 <= k < |at| :: at[k] < |items| && kept[k] == items[at[k]]
  }

  lemma {:induction false} ExcludingLast(items: seq<Item>, x: Item, ids: set<Identity>)
    ensures Excluding(items + [x], ids) == Excluding(items, ids) + if IdentityOf(x) in ids then [] else [x]
  {
    if items == [] {
      assert items + [x] == [x];
    } else {
      assert (items + [x])[1..] == items[1..] + [x];
      ExcludingLast(items[1..], x, ids);
    }
  }

  lemma {:induction false} UnknownPositions(items: seq<Item>, others: seq<Item>) returns (at: seq<nat>)
    ensures Increasing(at) && forall j: nat :: j in at <==> UnknownAt(items, others, j)
    ensures PickedAt(Excluding(items, Identities(others)), items, at)
  {
    if items == [] { return []; }
    var n := |items| - 1;
    var init, x := items[..n], items[n];
    at := UnknownPositions(init, others);
    assert items == init + [x];
    ExcludingLast(init, x, Identities(others));
    KnownMeaning(others, x);
    forall j: nat
      ensures UnknownAt(items, others, j) <==> UnknownAt(init, others, j) || (j == n && !Known(others, x))
    {
    }
    forall k | 0 <= k < |at| ensures at[k] < n { assert at[k] in at && UnknownAt(init, others, at[k]); }
    if !Known(others, x) { at := at + [n]; }
  }

  /** The merge is origin with its own items first, then the local items that match none of those, unchanged; a local
      item that matches one is dropped. */
  lemma MergeItems(origin: Queue, local: Queue)
    ensures var m, n := Merge(origin, local), |ItemsIn(origin)|;
            && m.rest == origin.rest && m.items.Some? && n <= |m.items.value|
            && m.items.value[..n] == ItemsIn(origin)
            && KeepsUnknown(m.items.value[n..], ItemsIn(local), ItemsIn(origin))
    ensures forall x | x in ItemsIn(local) :: !Known(ItemsIn(origin), x) ==> x in ItemsIn(Merge(origin, local))
    ensures forall x | x in ItemsIn(Merge(origin, local)) ::
              x in ItemsIn(origin) || (x in ItemsIn(local) && !Known(ItemsIn(origin), x))
  {
    var a, b := ItemsIn(origin), ItemsIn(local);
    var kept := Excluding(b, Identities(a));
    var at := UnknownPositions(b, a);
    assert (a + kept)[..|a|] == a && (a + kept)[|a|..] == kept;
    forall x | x in b && !Known(a, x) ensures x in kept {
      var j :| 0 <= j < |b| && b[j] == x;
      assert UnknownAt(b, a, j);
      var k :| 0 <= k < |at| && at[k] == j;
      assert kept[k] == x;
    }
    forall x | x in kept ensures x in b && !Known(a, x) {
      var k :| 0 <= k < |kept| && kept[k] == x;
      assert at[k] in at && UnknownAt(b, a, at[k]);
    }
  }

  /** The copies of an item's identity are the items that match it. */
  lemma {:induction false} CopiesMeaning(items: seq<Item>, x: Item)
    ensures forall y :: y in CopiesOf(items, IdentityOf(x)) <==> y in items && Matches(x, y)
  {
    if items != [] {
      CopiesMeaning(items[1..], x);
      IdentityMeaning(x, items[0]);
      assert items == [items[0]] + items[1..];
    }
  }

  /** Origin wins for every identity it knows; any other identity is carried over from the local copy, unchanged. */
  lemma MergeMeaning(origin: Queue, local: Queue, i: Identity)
    ensures CopiesOf(ItemsIn(Merge(origin, local)), i) ==
            if i in Identities(ItemsIn(origin)) then CopiesOf(ItemsIn(origin), i) else CopiesOf(ItemsIn(local), i)
    ensures Merge(origin, local).rest == origin.rest
  {
    var a := ItemsIn(origin);
    var kept := Excluding(ItemsIn(local), Identities(a));
    assert ItemsIn(Merge(origin, local)) == a + kept;
    ExcludingMeaning(ItemsIn(local), Identities(a), i);
    CopiesOfConcat(a, kept, i);
    CopiesExist(a, i);
    assert CopiesOf(a, i) + [] == CopiesOf(a, i) && [] + CopiesOf(kept, i) == CopiesOf(kept, i);
  }

  lemma {:induction false} ExcludingAll(items: seq<Item>, ids: set<Identity>)
    requires Identities(items) <= ids
    ensures Excluding(items, ids) == []
  {
    if items != [] {
      assert IdentityOf(items[0]) in Identities(items);
      assert forall x | x in items[1..] :: x in items;
      ExcludingAll(items[1..], ids);
    }
  }

  lemma {:induction false} ExcludingConcat(a: seq<Item>, b: seq<Item>, ids: set<Identity>)
    ensures Excluding(a + b, ids) == Excluding(a, ids) + Excluding(b, ids)
  {
    if a == [] {
      assert a + b == b;
    } else {
      ExcludingConcat(a[1..], b, ids);
      assert (a + b)[1..] == a[1..] + b && (a + b)[0] == a[0];
      Regroup(if IdentityOf(a[0]) in ids then [] else [a[0]], Excluding(a[1..], ids), Excluding(b, ids));
    }
  }

  lemma {:induction false} ExcludingTwice(items: seq<Item>, p: set<Identity>, q: set<Identity>)
    ensures Excluding(Excluding(items, p), q) == Excluding(items, p + q)
  {
    if items != [] {
      ExcludingTwice(items[1..], p, q);
      var rest := Excluding(items[1..], p);
      assert [] + rest == rest && ([items[0]] + rest)[1..] == rest;
      assert [] + Excluding(rest, q) == Excluding(rest, q);
      assert [] + Excluding(items[1..], p + q) == Excluding(items[1..], p + q);
    }
  }

  lemma IdentitiesConcat(a: seq<Item>, b: seq<Item>)
    ensures Identities(a + b) == Identities(a) + Identities(b)
  {
    assert forall x :: x in a + b <==> x in a || x in b;
  }

  lemma {:induction false} IdentitiesExcluding(items: seq<Item>, ids: set<Identity>)
    ensures Identities(Excluding(items, ids)) == Identities(items) - ids
  {
    forall i ensures i in Identities(Excluding(items, ids)) <==> i in Identities(items) - ids {
      ExcludingMeaning(items, ids, i);
      CopiesExist(items, i);
      CopiesExist(Excluding(items, ids), i);
    }
  }

  /** Merging is associative. */
  lemma MergeAssociative(a: Queue, b: Queue, c: Queue)
    ensures Merge(a, Merge(b, c)) == Merge(Merge(a, b), c)
  {
    var x, y, z := ItemsIn(a), ItemsIn(b), ItemsIn(c);
    var p, q := Identities(x), Identities(y);
    ExcludingConcat(y, Excluding(z, q), p);
    ExcludingTwice(z, q, p);
    IdentitiesConcat(x, Excluding(y, p));
    IdentitiesExcluding(y, p);
    assert p + (q - p) == q + p;
    assert x + (Excluding(y, p) + Excluding(z, q + p)) == (x + Excluding(y, p)) + Excluding(z, q + p);
  }

  /** Merging a queue with itself changes nothing, except that a missing item list becomes an empty one. */
  lemma MergeIdempotent(q: Queue)
    ensures Merge(q, q) == q <==> q.items.Some?
    ensures Merge(q, q) == q.(items := Some(ItemsIn(q)))
  {
    ExcludingAll(ItemsIn(q), Identities(ItemsIn(q)));
    assert ItemsIn(q) + [] == ItemsIn(q);
  }

  // ---- the protocol --------------------------------------------------------------------------------

  /** A workspace: its copy of the queue, the origin version its push is checked against, and, to state the theorems,
      the version it last merged or pushed and the identities it has added or changed since. */
  datatype Workspace = Workspace(local: Queue, base: nat, merged: nat, touched: set<Identity>)
  {
    /** Its push is checked against a version that it has not merged. */
    predicate Stale() { base != merged }
  }

  /** All pushed versions, oldest first, and the workspaces. */
  datatype System = System(versions: seq<Queue>, spaces: seq<Workspace>)
  {
    function Origin(): Queue requires versions != [] { versions[|versions| - 1] }
    function Current(): nat requires versions != [] { |versions| - 1 }
  }

  datatype Step =
    | Sync(w: nat)                  // fetch and read succeed, and the merged queue is written to the local file
    | FetchFails(w: nat)            // offline: the local copy is used as it is
    | ReadFails(w: nat)             // fetched, but the file could not be read: the local copy is used as it is
    | ExitsUnwritten(w: nat)        // fetched and merged, but the tool exits before it writes the merged queue
    | Mutate(w: nat, to: Queue)     // a queue tool rewrites the local file
    | Push(w: nat)                  // accepted only if origin is still at the base version

  /** The queue tools change items in place and append; they never drop one. */
  ghost predicate Mutation(before: Queue, after: Queue)
  {
    Identities(ItemsIn(before)) <= Identities(ItemsIn(after))
  }

  /** The identities whose items a mutation adds or changes. */
  function Changed(before: Queue, after: Queue): set<Identity>
  {
    set i | i in Identities(ItemsIn(before)) + Identities(ItemsIn(after)) &&
            CopiesOf(ItemsIn(before), i) != CopiesOf(ItemsIn(after), i)
  }

  /** A workspace that has fetched origin and left its local copy as it was. */
  function Fetched(s: System, a: Workspace, fetchedIsBase: bool): Workspace
    requires s.versions != []
  {
    if fetchedIsBase then a.(base := s.Current()) else a
  }

  /** The step fetches origin without merging it into the local file. */
  predicate LeavesUnmerged(step: Step) { step.ReadFails? || step.ExitsUnwritten? }

  /** One step. `fetchedIsBase` says whether a push is checked against the version last fetched, which is the rule the
      tools assume, or against the version last merged. */
  ghost predicate Next(s: System, t: System, step: Step, fetchedIsBase: bool)
    requires s.versions != []
  {
    step.w < |s.spaces| == |t.spaces| &&
    (forall v | 0 <= v < |s.spaces| && v != step.w :: t.spaces[v] == s.spaces[v]) &&
    var a, b := s.spaces[step.w], t.spaces[step.w];
    match step
    case Sync(_) =>
      t.versions == s.versions && b == Workspace(Merge(s.Origin(), a.local), s.Current(), s.Current(), {})
    case FetchFails(_) => t.versions == s.versions && b == a
    case ReadFails(_) => t.versions == s.versions && b == Fetched(s, a, fetchedIsBase)
    case ExitsUnwritten(_) => t.versions == s.versions && b == Fetched(s, a, fetchedIsBase)
    case Mutate(_, to) =>
      t.versions == s.versions && Mutation(a.local, to) &&
      b == a.(local := to, touched := a.touched + Changed(a.local, to))
    case Push(_) =>
      if a.base == s.Current()
      then t.versions == s.versions + [a.local] && b == Workspace(a.local, |s.versions|, |s.versions|, {})
      else t.versions == s.versions && b == a
  }

  /** A push of `w` would be accepted now. */
  predicate Accepted(s: System, w: nat)
    requires s.versions != []
  {
    w < |s.spaces| && s.spaces[w].base == s.Current()
  }

  ghost predicate Initial(s: System)
  {
    |s.versions| == 1 && forall w | 0 <= w < |s.spaces| :: s.spaces[w] == Workspace(s.versions[0], 0, 0, {})
  }

  /** Every item of a version has a match in every later one. */
  ghost predicate NothingLost(versions: seq<Queue>)
  {
    forall j: nat, k: nat | j <= k < |versions| :: AllKnown(versions[j], versions[k])
  }

  ghost predicate AllKnown(before: Queue, after: Queue)
  {
    forall x | x in ItemsIn(before) :: Known(ItemsIn(after), x)
  }

  lemma AllKnownMeaning(before: Queue, after: Queue)
    ensures AllKnown(before, after) <==> Identities(ItemsIn(before)) <= Identities(ItemsIn(after))
  {
    forall x: Item ensures Known(ItemsIn(after), x) <==> IdentityOf(x) in Identities(ItemsIn(after)) {
      KnownMeaning(ItemsIn(after), x);
    }
    if Identities(ItemsIn(before)) <= Identities(ItemsIn(after)) {
      forall x | x in ItemsIn(before) ensures Known(ItemsIn(after), x) {
        assert IdentityOf(x) in Identities(ItemsIn(before));
      }
    }
  }

  /** A local copy holds every identity of the version last merged, and the same items except where it was changed
      since. */
  ghost predicate UpToDate(s: System, w: nat)
    requires w < |s.spaces| && s.versions != []
  {
    var space := s.spaces[w];
    && space.merged <= space.base < |s.versions|
    && Identities(ItemsIn(s.versions[space.merged])) <= Identities(ItemsIn(space.local))
    && forall i | i in Identities(ItemsIn(s.versions[space.merged])) && i !in space.touched ::
         CopiesOf(ItemsIn(space.local), i) == CopiesOf(ItemsIn(s.versions[space.merged]), i)
  }

  ghost predicate Inv(s: System)
  {
    s.versions != [] && forall w: nat | w < |s.spaces| :: UpToDate(s, w)
  }

  lemma MergeUpToDate(origin: Queue, local: Queue)
    ensures Identities(ItemsIn(origin)) <= Identities(ItemsIn(Merge(origin, local)))
    ensures Identities(ItemsIn(local)) <= Identities(ItemsIn(Merge(origin, local)))
    ensures forall i | i in Identities(ItemsIn(origin)) ::
              CopiesOf(ItemsIn(Merge(origin, local)), i) == CopiesOf(ItemsIn(origin), i)
    ensures forall i | i !in Identities(ItemsIn(origin)) ::
              CopiesOf(ItemsIn(Merge(origin, local)), i) == CopiesOf(ItemsIn(local), i)
  {
    forall i ensures CopiesOf(ItemsIn(Merge(origin, local)), i) ==
                     if i in Identities(ItemsIn(origin)) then CopiesOf(ItemsIn(origin), i)
                       else CopiesOf(ItemsIn(local), i)
    {
      MergeMeaning(origin, local, i);
    }
    IdentitiesConcat(ItemsIn(origin), Excluding(ItemsIn(local), Identities(ItemsIn(origin))));
    IdentitiesExcluding(ItemsIn(local), Identities(ItemsIn(origin)));
  }

  /** The acting workspace stays up to date. */
  lemma ActorUpToDate(s: System, t: System, step: Step, fetchedIsBase: bool)
    requires Inv(s) && Next(s, t, step, fetchedIsBase)
    ensures UpToDate(t, step.w)
  {
    var a, b := s.spaces[step.w], t.spaces[step.w];
    assert UpToDate(s, step.w);
    match step
    case Sync(_) => MergeUpToDate(s.Origin(), a.local);
    case Mutate(_, to) =>
      forall i | i in Identities(ItemsIn(s.versions[a.merged])) && i !in b.touched
        ensures CopiesOf(ItemsIn(to), i) == CopiesOf(ItemsIn(s.versions[a.merged]), i)
      {
        assert i !in Changed(a.local, to);
      }
    case _ =>
  }

  lemma NextKeepsInv(s: System, t: System, step: Step, fetchedIsBase: bool)
    requires Inv(s) && Next(s, t, step, fetchedIsBase)
    ensures Inv(t)
  {
    ActorUpToDate(s, t, step, fetchedIsBase);
    forall w: nat | w < |t.spaces| ensures UpToDate(t, w) {
      assert UpToDate(s, w);
    }
  }

  // ---- one push --------------------------------------------------------------------------------------

  /** Under either rule: what an accepted push loses is not in the version that the workspace last merged, nor, if
      nothing was lost before, in any earlier one; and the items it alters or reverts are its own changes or differ
      from the version last merged. */
  lemma PushLosesOnlyUnmerged(s: System, t: System, w: nat, fetchedIsBase: bool, i: Identity)
    requires s.versions != [] && w < |s.spaces| && UpToDate(s, w)
    requires Next(s, t, Push(w), fetchedIsBase) && Accepted(s, w)
    requires i in Identities(ItemsIn(s.Origin()))
    ensures i !in Identities(ItemsIn(t.Origin())) ==> i !in Identities(ItemsIn(s.versions[s.spaces[w].merged]))
    ensures i !in Identities(ItemsIn(t.Origin())) && NothingLost(s.versions) ==>
              forall j: nat | j <= s.spaces[w].merged :: i !in Identities(ItemsIn(s.versions[j]))
    ensures CopiesOf(ItemsIn(t.Origin()), i) != CopiesOf(ItemsIn(s.Origin()), i) && i !in s.spaces[w].touched ==>
              i !in Identities(ItemsIn(s.versions[s.spaces[w].merged])) ||
              CopiesOf(ItemsIn(s.versions[s.spaces[w].merged]), i) != CopiesOf(ItemsIn(s.Origin()), i)
  {
    var m := s.spaces[w].merged;
    if i !in Identities(ItemsIn(s.versions[m])) && NothingLost(s.versions) { MissingBefore(s.versions, m, i); }
  }

  lemma MissingBefore(versions: seq<Queue>, m: nat, i: Identity)
    requires NothingLost(versions) && m < |versions| && i !in Identities(ItemsIn(versions[m]))
    ensures forall j: nat | j <= m :: i !in Identities(ItemsIn(versions[j]))
  {
    forall j: nat | j <= m ensures i !in Identities(ItemsIn(versions[j])) {
      assert AllKnown(versions[j], versions[m]);
      AllKnownMeaning(versions[j], versions[m]);
    }
  }

  /** Under either rule: an accepted push of a workspace that is not stale loses no identity of origin, and alters no
      item that the workspace has not changed since its last merge. */
  lemma PushAltersOnlyOwnChanges(s: System, t: System, w: nat, fetchedIsBase: bool, i: Identity)
    requires Inv(s) && Next(s, t, Push(w), fetchedIsBase) && Accepted(s, w) && !s.spaces[w].Stale()
    requires i in Identities(ItemsIn(s.Origin()))
    ensures i in Identities(ItemsIn(t.Origin()))
    ensures i !in s.spaces[w].touched ==> CopiesOf(ItemsIn(t.Origin()), i) == CopiesOf(ItemsIn(s.Origin()), i)
  {
    assert UpToDate(s, w);
    PushLosesOnlyUnmerged(s, t, w, fetchedIsBase, i);
  }

  /** No step removes an identity from a workspace's copy; a merge keeps an item that origin does not know as it is,
      and an accepted push delivers it. */
  lemma LocalItemsSurvive(s: System, t: System, step: Step, fetchedIsBase: bool, v: nat, i: Identity)
    requires s.versions != [] && Next(s, t, step, fetchedIsBase) && v < |s.spaces|
    requires i in Identities(ItemsIn(s.spaces[v].local))
    ensures i in Identities(ItemsIn(t.spaces[v].local))
    ensures step == Sync(v) && i !in Identities(ItemsIn(s.Origin())) ==>
              CopiesOf(ItemsIn(t.spaces[v].local), i) == CopiesOf(ItemsIn(s.spaces[v].local), i)
    ensures step == Push(v) && Accepted(s, v) ==> i in Identities(ItemsIn(t.Origin()))
  {
    if step == Sync(v) { MergeUpToDate(s.Origin(), s.spaces[v].local); }
  }

  // ---- runs --------------------------------------------------------------------------------------------

  /** A run of the protocol. */
  ghost predicate IsRun(ss: seq<System>, steps: seq<Step>, fetchedIsBase: bool)
  {
    |ss| == |steps| + 1 && Initial(ss[0]) &&
    forall k: nat | k < |steps| :: StepAt(ss, steps, fetchedIsBase, k)
  }

  ghost predicate StepAt(ss: seq<System>, steps: seq<Step>, fetchedIsBase: bool, k: nat)
    requires k < |steps| < |ss|
  {
    ss[k].versions != [] && Next(ss[k], ss[k + 1], steps[k], fetchedIsBase)
  }

  lemma StepOfRun(ss: seq<System>, steps: seq<Step>, fetchedIsBase: bool, k: nat)
    requires IsRun(ss, steps, fetchedIsBase) && k < |steps|
    ensures ss[k].versions != [] && Next(ss[k], ss[k + 1], steps[k], fetchedIsBase)
  {
    assert StepAt(ss, steps, fetchedIsBase, k);
  }

  lemma {:induction false} RunsKeepInv(ss: seq<System>, steps: seq<Step>, fetchedIsBase: bool, n: nat)
    requires IsRun(ss, steps, fetchedIsBase) && n <= |steps|
    ensures Inv(ss[n]) && |ss[n].spaces| == |ss[0].spaces|
  {
    if n == 0 {
      forall w: nat | w < |ss[0].spaces| ensures UpToDate(ss[0], w) {}
    } else {
      RunsKeepInv(ss, steps, fetchedIsBase, n - 1);
      StepOfRun(ss, steps, fetchedIsBase, n - 1);
      NextKeepsInv(ss[n - 1], ss[n], steps[n - 1], fetchedIsBase);
    }
  }

  /** The `k`-th step of the run is an accepted push. */
  ghost predicate PushedAt(ss: seq<System>, steps: seq<Step>, k: nat)
  {
    k < |steps| && k < |ss| && steps[k].Push? && ss[k].versions != [] && Accepted(ss[k], steps[k].w)
  }

  /** That push covers origin: before it, the local copy holds every identity of origin. */
  ghost predicate CoversAt(ss: seq<System>, steps: seq<Step>, k: nat)
    requires PushedAt(ss, steps, k)
  {
    Identities(ItemsIn(ss[k].Origin())) <= Identities(ItemsIn(ss[k].spaces[steps[k].w].local))
  }

  /** Version after version, each holds the identities of the one before. */
  ghost predicate StepwiseKept(versions: seq<Queue>)
  {
    forall j: nat | j + 1 < |versions| :: KeptAt(versions, j)
  }

  ghost predicate KeptAt(versions: seq<Queue>, j: nat)
    requires j + 1 < |versions|
  {
    Identities(ItemsIn(versions[j])) <= Identities(ItemsIn(versions[j + 1]))
  }

  lemma {:induction false} KeptBetween(versions: seq<Queue>, j: nat, k: nat)
    requires StepwiseKept(versions) && j <= k < |versions|
    ensures Identities(ItemsIn(versions[j])) <= Identities(ItemsIn(versions[k]))
  {
    if j < k {
      KeptBetween(versions, j, k - 1);
      assert KeptAt(versions, k - 1);
    }
  }

  lemma StepwiseIsNothingLost(versions: seq<Queue>)
    ensures StepwiseKept(versions) <==> NothingLost(versions)
  {
    if StepwiseKept(versions) {
      forall j: nat, k: nat | j <= k < |versions|
        ensures AllKnown(versions[j], versions[k])
      {
        KeptBetween(versions, j, k);
        AllKnownMeaning(versions[j], versions[k]);
      }
    }
    if NothingLost(versions) {
      forall j: nat | j + 1 < |versions| ensures KeptAt(versions, j) {
        assert AllKnown(versions[j], versions[j + 1]);
        AllKnownMeaning(versions[j], versions[j + 1]);
      }
    }
  }

  /** After `n` steps nothing is lost exactly if every accepted push so far covered origin. */
  lemma {:induction false} KeptSoFarIff(ss: seq<System>, steps: seq<Step>, fetchedIsBase: bool, n: nat)
    requires IsRun(ss, steps, fetchedIsBase) && n <= |steps|
    ensures StepwiseKept(ss[n].versions) <==> forall k: nat | k < n && PushedAt(ss, steps, k) :: CoversAt(ss, steps, k)
  {
    if n > 0 {
      KeptSoFarIff(ss, steps, fetchedIsBase, n - 1);
      OneMoreVersion(ss, steps, fetchedIsBase, n - 1);
    }
  }

  lemma OneMoreVersion(ss: seq<System>, steps: seq<Step>, fetchedIsBase: bool, k: nat)
    requires IsRun(ss, steps, fetchedIsBase) && k < |steps|
    ensures StepwiseKept(ss[k + 1].versions) <==>
            StepwiseKept(ss[k].versions) && (PushedAt(ss, steps, k) ==> CoversAt(ss, steps, k))
  {
    StepOfRun(ss, steps, fetchedIsBase, k);
    var old_, new_ := ss[k].versions, ss[k + 1].versions;
    if PushedAt(ss, steps, k) {
      assert new_ == old_ + [ss[k].spaces[steps[k].w].local];
      assert KeptAt(new_, |old_| - 1) <==> CoversAt(ss, steps, k);
      assert forall j: nat | j + 1 < |old_| :: KeptAt(new_, j) <==> KeptAt(old_, j);
    } else {
      assert new_ == old_;
    }
  }

  /** Under either rule, whatever fails in between: a run loses no pushed identity if and only if each accepted push
      comes from a local copy that holds every identity of origin. */
  lemma RunLosesNothingIff(ss: seq<System>, steps: seq<Step>, fetchedIsBase: bool)
    requires IsRun(ss, steps, fetchedIsBase)
    ensures NothingLost(ss[|steps|].versions) <==>
            forall k: nat | PushedAt(ss, steps, k) :: CoversAt(ss, steps, k)
  {
    KeptSoFarIff(ss, steps, fetchedIsBase, |steps|);
    StepwiseIsNothingLost(ss[|steps|].versions);
  }

  /** Under either rule, a run in which no stale workspace has a push accepted loses nothing. */
  lemma FreshPushesLoseNothing(ss: seq<System>, steps: seq<Step>, fetchedIsBase: bool)
    requires IsRun(ss, steps, fetchedIsBase)
    requires forall k: nat | PushedAt(ss, steps, k) :: !ss[k].spaces[steps[k].w].Stale()
    ensures NothingLost(ss[|steps|].versions)
  {
    RunLosesNothingIff(ss, steps, fetchedIsBase);
    forall k: nat | PushedAt(ss, steps, k) ensures CoversAt(ss, steps, k) {
      RunsKeepInv(ss, steps, fetchedIsBase, k);
      assert UpToDate(ss[k], steps[k].w);
    }
  }

  /** Among the first `n` steps, `w` has fetched origin without merging it into its file, and not merged since. */
  predicate Unmerged(steps: seq<Step>, n: nat, w: nat)
    requires n <= |steps|
  {
    n > 0 && steps[n - 1] != Sync(w) &&
    ((LeavesUnmerged(steps[n - 1]) && steps[n - 1].w == w) || Unmerged(steps, n - 1, w))
  }

  lemma {:induction false} UnmergedMeaning(steps: seq<Step>, n: nat, w: nat)
    requires n <= |steps|
    ensures Unmerged(steps, n, w) <==> exists k: nat :: k < n && UnmergedSince(steps, k, n, w)
  {
    if n > 0 {
      UnmergedMeaning(steps, n - 1, w);
      if Unmerged(steps, n - 1, w) && steps[n - 1] != Sync(w) {
        var k: nat :| k < n - 1 && UnmergedSince(steps, k, n - 1, w);
        assert UnmergedSince(steps, k, n, w);
      }
      if Unmerged(steps, n, w) && !Unmerged(steps, n - 1, w) { assert UnmergedSince(steps, n - 1, n, w); }
      if k: nat :| k < n && UnmergedSince(steps, k, n, w) {
        assert k < n - 1 ==> UnmergedSince(steps, k, n - 1, w) && steps[n - 1] != Sync(w);
      }
    }
  }

  /** The `k`-th step leaves `w` unmerged, and none of the following does merge. */
  predicate UnmergedSince(steps: seq<Step>, k: nat, n: nat, w: nat)
    requires k < n <= |steps|
  {
    LeavesUnmerged(steps[k]) && steps[k].w == w && forall j: nat | k < j < n :: steps[j] != Sync(w)
  }

  /** Only a fetch that is not merged into the file, under the last-fetched rule, makes a workspace stale, and only
      until its next merge. */
  lemma {:induction false} StaleIsUnmerged(ss: seq<System>, steps: seq<Step>, fetchedIsBase: bool, n: nat, w: nat)
    requires IsRun(ss, steps, fetchedIsBase) && n <= |steps| && w < |ss[n].spaces| && ss[n].spaces[w].Stale()
    ensures fetchedIsBase && Unmerged(steps, n, w)
  {
    if n > 0 {
      StepOfRun(ss, steps, fetchedIsBase, n - 1);
      if ss[n - 1].spaces[w].Stale() { StaleIsUnmerged(ss, steps, fetchedIsBase, n - 1, w); }
    }
  }

  /** Under the rule of the tools, a run loses nothing if no workspace pushes successfully between a fetch that
      it does not merge into its file and its next merge. */
  lemma SafeUnderLastFetched(ss: seq<System>, steps: seq<Step>)
    requires IsRun(ss, steps, true)
    requires forall k: nat | PushedAt(ss, steps, k) :: !Unmerged(steps, k, steps[k].w)
    ensures NothingLost(ss[|steps|].versions)
  {
    forall k: nat | PushedAt(ss, steps, k) ensures !ss[k].spaces[steps[k].w].Stale() {
      if ss[k].spaces[steps[k].w].Stale() { StaleIsUnmerged(ss, steps, true, k, steps[k].w); }
    }
    FreshPushesLoseNothing(ss, steps, true);
  }

  /** In any run, and under the rule of the tools if it has merged since its last fetch, a workspace that pushes
      alters no item of origin but those it has changed since its last merge. */
  lemma RunPushesAlterOnlyOwnChanges(ss: seq<System>, steps: seq<Step>, fetchedIsBase: bool, k: nat, i: Identity)
    requires IsRun(ss, steps, fetchedIsBase) && PushedAt(ss, steps, k)
    requires fetchedIsBase ==> !Unmerged(steps, k, steps[k].w)
    requires i in Identities(ItemsIn(ss[k].Origin()))
    ensures ss[k + 1].versions != [] && i in Identities(ItemsIn(ss[k + 1].Origin()))
    ensures i !in ss[k].spaces[steps[k].w].touched ==>
              CopiesOf(ItemsIn(ss[k + 1].Origin()), i) == CopiesOf(ItemsIn(ss[k].Origin()), i)
  {
    RunsKeepInv(ss, steps, fetchedIsBase, k);
    if ss[k].spaces[steps[k].w].Stale() { StaleIsUnmerged(ss, steps, fetchedIsBase, k, steps[k].w); }
    StepOfRun(ss, steps, fetchedIsBase, k);
    PushAltersOnlyOwnChanges(ss[k], ss[k + 1], steps[k].w, fetchedIsBase, i);
  }

  /** Between the steps `m` and `n`, the workspace `v` does not change `i`, and origin does not know `i` whenever `v`
      merges. */
  ghost predicate Undisturbed(ss: seq<System>, steps: seq<Step>, v: nat, i: Identity, m: nat, n: nat)
    requires n <= |steps| < |ss|
  {
    forall k: nat | m <= k < n :: UndisturbedAt(ss, steps, v, i, k)
  }

  ghost predicate UndisturbedAt(ss: seq<System>, steps: seq<Step>, v: nat, i: Identity, k: nat)
    requires k < |steps| < |ss|
  {
    match steps[k]
    case Sync(w) => w == v ==> ss[k].versions != [] && i !in Identities(ItemsIn(ss[k].Origin()))
    case Mutate(w, to) => w == v ==> v < |ss[k].spaces| && i !in Changed(ss[k].spaces[v].local, to)
    case _ => true
  }

  /** The local copy of `v` holds `i`. */
  predicate Holds(s: System, v: nat, i: Identity) { v < |s.spaces| && i in Identities(ItemsIn(s.spaces[v].local)) }

  /** Its copies of `i`. */
  function CopiesAt(s: System, v: nat, i: Identity): seq<Item>
    requires v < |s.spaces|
  {
    CopiesOf(ItemsIn(s.spaces[v].local), i)
  }

  /** Over a whole run: what is in a local copy stays there, under any steps of any workspace; and it stays as it is, as
      long as its workspace does not change it and origin does not know it. */
  lemma {:induction false} LocalItemsSurviveRuns(ss: seq<System>, steps: seq<Step>, fetchedIsBase: bool, v: nat,
                                                 i: Identity,
                                                 m: nat, n: nat)
    requires IsRun(ss, steps, fetchedIsBase) && m <= n <= |steps| && Holds(ss[m], v, i)
    ensures Holds(ss[n], v, i)
    ensures Undisturbed(ss, steps, v, i, m, n) ==> CopiesAt(ss[n], v, i) == CopiesAt(ss[m], v, i)
  {
    if m < n {
      LocalItemsSurviveRuns(ss, steps, fetchedIsBase, v, i, m, n - 1);
      LocalItemKept(ss, steps, fetchedIsBase, n - 1, v, i);
      assert Undisturbed(ss, steps, v, i, m, n) ==> UndisturbedAt(ss, steps, v, i, n - 1);
    }
  }

  /** A push accepted later delivers it. */
  lemma LocalItemsAreDelivered(ss: seq<System>, steps: seq<Step>, fetchedIsBase: bool, i: Identity, m: nat, n: nat)
    requires IsRun(ss, steps, fetchedIsBase) && m <= n && PushedAt(ss, steps, n) && Holds(ss[m], steps[n].w, i)
    ensures ss[n + 1].versions != [] && i in Identities(ItemsIn(ss[n + 1].Origin()))
  {
    LocalItemsSurviveRuns(ss, steps, fetchedIsBase, steps[n].w, i, m, n);
    StepOfRun(ss, steps, fetchedIsBase, n);
  }

  lemma LocalItemKept(ss: seq<System>, steps: seq<Step>, fetchedIsBase: bool, k: nat, v: nat, i: Identity)
    requires IsRun(ss, steps, fetchedIsBase) && k < |steps| && Holds(ss[k], v, i)
    ensures Holds(ss[k + 1], v, i)
    ensures UndisturbedAt(ss, steps, v, i, k) ==> CopiesAt(ss[k + 1], v, i) == CopiesAt(ss[k], v, i)
  {
    StepOfRun(ss, steps, fetchedIsBase, k);
    LocalItemsSurvive(ss[k], ss[k + 1], steps[k], fetchedIsBase, v, i);
  }

  // ---- runs that lose an item --------------------------------------------------------------------------

  /** Workspace 1 pushes a new issue; workspace 0 fetches without merging into its file, for the given cause, and its
      push is still accepted when pushes are checked against the version last fetched. */
  ghost function LosingRun(cause: Step): (seq<System>, seq<Step>)
  {
    var empty := Queue(Some([]), map[]);
    var full := Queue(Some([Item(Some("1"), None, None, "")]), map[]);
    var added := Workspace(full, 0, 0, {Issue("1")});
    var pushed := Workspace(full, 1, 1, {});
    ([System([empty], [Workspace(empty, 0, 0, {}), Workspace(empty, 0, 0, {})]),
      System([empty], [Workspace(empty, 0, 0, {}), added]),
      System([empty, full], [Workspace(empty, 0, 0, {}), pushed]),
      System([empty, full], [Workspace(empty, 1, 0, {}), pushed]),
      System([empty, full, empty], [Workspace(empty, 2, 2, {}), pushed])],
     [Mutate(1, full), Push(1), cause, Push(0)])
  }

  lemma OneItem()
    ensures var empty := Queue(Some([]), map[]);
            var full := Queue(Some([Item(Some("1"), None, None, "")]), map[]);
            && Identities(ItemsIn(empty)) == {} && Identities(ItemsIn(full)) == {Issue("1")}
            && Changed(empty, full) == {Issue("1")}
  {
    var full := Queue(Some([Item(Some("1"), None, None, "")]), map[]);
    assert full.items.value[0] in ItemsIn(full);
    CopiesExist(ItemsIn(full), Issue("1"));
  }

  lemma LosingRunIsRun(cause: Step)
    requires cause == ReadFails(0) || cause == ExitsUnwritten(0)
    ensures IsRun(LosingRun(cause).0, LosingRun(cause).1, true)
  {
    var (ss, steps) := LosingRun(cause);
    OneItem();
    assert StepAt(ss, steps, true, 0);
    assert StepAt(ss, steps, true, 1);
    assert StepAt(ss, steps, true, 2);
    assert StepAt(ss, steps, true, 3);
  }

  lemma LosingRunLoses(cause: Step)
    ensures !NothingLost(LosingRun(cause).0[4].versions)
  {
    OneItem();
    var versions := LosingRun(cause).0[4].versions;
    assert !(Identities(ItemsIn(versions[1])) <= Identities(ItemsIn(versions[2])));
  }

  /** A failed read is the only mishap of this run, and it loses an item. */
  lemma ReadFailureLosesItem()
    ensures var (ss, steps) := LosingRun(ReadFails(0));
            IsRun(ss, steps, true) && Allowed(steps, true, false) && !NothingLost(ss[|ss| - 1].versions)
  {
    LosingRunIsRun(ReadFails(0));
    LosingRunLoses(ReadFails(0));
  }

  /** No read fails in this run: the tool exits on an item that is locked by another workspace, is not in progress or
      does not exist, before it writes what it has merged. It loses an item too. */
  lemma ErrorExitLosesItem()
    ensures var (ss, steps) := LosingRun(ExitsUnwritten(0));
            IsRun(ss, steps, true) && Allowed(steps, false, true) && !NothingLost(ss[|ss| - 1].versions)
  {
    LosingRunIsRun(ExitsUnwritten(0));
    LosingRunLoses(ExitsUnwritten(0));
  }

  /** Reads fail, and tools exit without writing, only if the flags say so. */
  predicate Allowed(steps: seq<Step>, readsFail: bool, exitsUnwritten: bool)
  {
    forall k | 0 <= k < |steps| ::
      (steps[k].ReadFails? ==> readsFail) && (steps[k].ExitsUnwritten? ==> exitsUnwritten)
  }

  /** Every such run keeps every identity ever pushed. */
  ghost predicate NothingEverLost(fetchedIsBase: bool, readsFail: bool, exitsUnwritten: bool)
  {
    forall ss: seq<System>, steps: seq<Step> |
      IsRun(ss, steps, fetchedIsBase) && Allowed(steps, readsFail, exitsUnwritten) ::
      NothingLost(ss[|ss| - 1].versions)
  }

  lemma {:induction false} UnmergedNeedsFetch(steps: seq<Step>, n: nat, w: nat)
    requires n <= |steps| && Unmerged(steps, n, w)
    ensures exists k :: 0 <= k < |steps| && LeavesUnmerged(steps[k])
  {
    if !LeavesUnmerged(steps[n - 1]) { UnmergedNeedsFetch(steps, n - 1, w); }
  }

  /** No pushed identity ever disappears in any run, if and only if pushes are checked against the version last
      merged, or every fetch is merged into the file: no read fails and no tool exits unwritten. */
  lemma PushedIsNeverLost(fetchedIsBase: bool, readsFail: bool, exitsUnwritten: bool)
    ensures NothingEverLost(fetchedIsBase, readsFail, exitsUnwritten) <==>
            !fetchedIsBase || (!readsFail && !exitsUnwritten)
  {
    if fetchedIsBase && readsFail {
      ReadFailureLosesItem();
    } else if fetchedIsBase && exitsUnwritten {
      ErrorExitLosesItem();
    } else {
      forall ss: seq<System>, steps: seq<Step> |
        IsRun(ss, steps, fetchedIsBase) && Allowed(steps, readsFail, exitsUnwritten)
        ensures NothingLost(ss[|ss| - 1].versions)
      {
        NothingStale(ss, steps, fetchedIsBase);
        FreshPushesLoseNothing(ss, steps, fetchedIsBase);
      }
    }
  }

  lemma NothingStale(ss: seq<System>, steps: seq<Step>, fetchedIsBase: bool)
    requires IsRun(ss, steps, fetchedIsBase) && (fetchedIsBase ==> Allowed(steps, false, false))
    ensures forall k: nat | PushedAt(ss, steps, k) :: !ss[k].spaces[steps[k].w].Stale()
  {
    forall k: nat | PushedAt(ss, steps, k) ensures !ss[k].spaces[steps[k].w].Stale() {
      if ss[k].spaces[steps[k].w].Stale() {
        StaleIsUnmerged(ss, steps, fetchedIsBase, k, steps[k].w);
        UnmergedNeedsFetch(steps, k, steps[k].w);
      }
    }
  }
}
