/** Python's `sorted`: a stable insertion. */
module Sorting {

  /** `leq` compares all values, by some key. */
  ghost predicate Ranks<T(!new)>(leq: (T, T) -> bool)
  {
    && (forall a, b :: leq(a, b) || leq(b, a))
    && (forall a, b, c :: leq(a, b) && leq(b, c) ==> leq(a, c))
  }

  /** And the key is the whole value. */
  ghost predicate TotalOrder<T(!new)>(leq: (T, T) -> bool)
  {
    Ranks(leq) && forall a, b :: leq(a, b) && leq(b, a) ==> a == b
  }

  function Insert<T>(leq: (T, T) -> bool, s: T, q: seq<T>): seq<T>
  {
    if q == [] || leq(s, q[0]) then [s] + q else [q[0]] + Insert(leq, s, q[1..])
  }

  function Sorted<T>(leq: (T, T) -> bool, q: seq<T>): seq<T>
  {
    if q == [] then [] else Insert(leq, q[0], Sorted(leq, q[1..]))
  }

  ghost predicate Ascending<T>(leq: (T, T) -> bool, q: seq<T>) { forall i, j | 0 <= i < j < |q| :: leq(q[i], q[j]) }

  lemma Prepend<T>(leq: (T, T) -> bool, s: T, q: seq<T>)
    requires Ascending(leq, q) && forall x | x in q :: leq(s, x)
    ensures Ascending(leq, [s] + q) && multiset([s] + q) == multiset(q) + multiset{s}
  {
  }

  lemma {:induction false} InsertKeeps<T(!new)>(leq: (T, T) -> bool, s: T, q: seq<T>)
    requires Ranks(leq) && Ascending(leq, q)
    ensures Ascending(leq, Insert(leq, s, q)) && multiset(Insert(leq, s, q)) == multiset(q) + multiset{s}
  {
    if q == [] {
    } else if leq(s, q[0]) {
      forall x | x in q ensures leq(s, x) {
        HeadIsLeast(leq, q, x);
      }
      Prepend(leq, s, q);
    } else {
      InsertKeeps(leq, s, q[1..]);
      assert q == [q[0]] + q[1..];
      forall x | x in Insert(leq, s, q[1..]) ensures leq(q[0], x) {
        assert x in multiset(q[1..]) + multiset{s};
      }
      Prepend(leq, q[0], Insert(leq, s, q[1..]));
    }
  }

  lemma {:induction false} SortedSorts<T(!new)>(leq: (T, T) -> bool, q: seq<T>)
    requires Ranks(leq)
    ensures Ascending(leq, Sorted(leq, q)) && multiset(Sorted(leq, q)) == multiset(q)
  {
    if q != [] {
      SortedSorts(leq, q[1..]);
      InsertKeeps(leq, q[0], Sorted(leq, q[1..]));
      assert q == [q[0]] + q[1..];
    }
  }

  lemma SortedPair<T>(leq: (T, T) -> bool, a: T, b: T)
    requires leq(a, b)
    ensures Sorted(leq, [b]) == [b] && Sorted(leq, [a, b]) == [a, b]
  {
    assert [b][1..] == [] && [a, b][1..] == [b];
    assert Sorted(leq, []) == [];
  }

  lemma HeadIsLeast<T(!new)>(leq: (T, T) -> bool, p: seq<T>, s: T)
    requires Ranks(leq) && Ascending(leq, p) && p != [] && s in p
    ensures leq(p[0], s)
  {
  }

  lemma {:induction false} AscendingUnique<T(!new)>(leq: (T, T) -> bool, p: seq<T>, q: seq<T>)
    requires TotalOrder(leq) && Ascending(leq, p) && Ascending(leq, q) && multiset(p) == multiset(q)
    ensures p == q
  {
    assert |multiset(p)| == |p| && |multiset(q)| == |q|;
    if p != [] {
      SameHead(leq, p, q);
      WithoutHead(p);
      WithoutHead(q);
      AscendingUnique(leq, p[1..], q[1..]);
    }
  }

  lemma SameHead<T(!new)>(leq: (T, T) -> bool, p: seq<T>, q: seq<T>)
    requires TotalOrder(leq) && Ascending(leq, p) && Ascending(leq, q) && multiset(p) == multiset(q) && p != [] &&
             q != []
    ensures p[0] == q[0]
  {
    assert p[0] in multiset(q) && q[0] in multiset(p);
    HeadIsLeast(leq, p, q[0]);
    HeadIsLeast(leq, q, p[0]);
  }

  lemma WithoutHead<T>(p: seq<T>)
    requires p != []
    ensures p == [p[0]] + p[1..] && multiset(p[1..]) == multiset(p) - multiset{p[0]}
  {
    assert p == [p[0]] + p[1..];
  }

  /** Sorting forgets the order and nothing else. */
  lemma SortedForgetsOrder<T(!new)>(leq: (T, T) -> bool, p: seq<T>, q: seq<T>)
    requires TotalOrder(leq)
    ensures Sorted(leq, p) == Sorted(leq, q) <==> multiset(p) == multiset(q)
  {
    SortedSorts(leq, p);
    SortedSorts(leq, q);
    if multiset(p) == multiset(q) { AscendingUnique(leq, Sorted(leq, p), Sorted(leq, q)); }
  }
}
