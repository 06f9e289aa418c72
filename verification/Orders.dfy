/** Orders that Python's `sorted` relies on: Ids by code point, and the sort keys of the two planners. */
module Orders {

  /** Lexicographic order of strings, by code point. */
  predicate StrLeq(a: string, b: string)
  {
    a == [] || (b != [] && (a[0] < b[0] || (a[0] == b[0] && StrLeq(a[1..], b[1..]))))
  }

  lemma {:induction false} StrTotal(a: string, b: string)
    ensures StrLeq(a, b) || StrLeq(b, a)
    ensures StrLeq(a, b) && StrLeq(b, a) ==> a == b
  {
    if a != [] && b != [] && a[0] == b[0] {
      StrTotal(a[1..], b[1..]);
      assert a == [a[0]] + a[1..] && b == [b[0]] + b[1..];
    }
  }

  lemma {:induction false} StrTransitive(a: string, b: string, c: string)
    requires StrLeq(a, b) && StrLeq(b, c)
    ensures StrLeq(a, c)
  {
    if a != [] && a[0] == b[0] == c[0] {
      StrTransitive(a[1..], b[1..], c[1..]);
    }
  }

  /** At position `k` the strings differ for the first time, and `a` has the smaller character. */
  ghost predicate SmallerAt(a: string, b: string, k: nat)
  {
    k < |a| && k < |b| && a[..k] == b[..k] && a[k] < b[k]
  }

  lemma {:induction false} StrLeqMeaning(a: string, b: string)
    ensures StrLeq(a, b) <==> a <= b || exists k: nat :: SmallerAt(a, b, k)
  {
    if a != [] && b != [] {
      assert a == [a[0]] + a[1..] && b == [b[0]] + b[1..];
      if a[0] < b[0] { assert SmallerAt(a, b, 0); }
      if a[0] == b[0] {
        StrLeqMeaning(a[1..], b[1..]);
        if k: nat :| SmallerAt(a[1..], b[1..], k) {
          assert a[..k + 1] == [a[0]] + a[1..][..k] && b[..k + 1] == [b[0]] + b[1..][..k];
          assert SmallerAt(a, b, k + 1);
        }
      }
      if k: nat :| SmallerAt(a, b, k) {
        assert k > 0 ==> a[0] == a[..k][0] && b[0] == b[..k][0];
        assert k > 0 ==> a[1..][..k - 1] == a[..k][1..] && b[1..][..k - 1] == b[..k][1..];
        assert k > 0 ==> SmallerAt(a[1..], b[1..], k - 1);
      }
    }
  }

  /** An identifier, ordered by its name. */
  datatype Id = Id(name: string)

  /** A scheduler's sort key: the stage (class, number, text), the priority rank, and the requirement id. */
  datatype SortKey = SortKey(cls: int, num: real, text: string, rank: int, id: Id)

  /** Lexicographic order of the key tuple. */
  predicate KeyLeq(a: SortKey, b: SortKey)
  {
    if a.cls != b.cls then a.cls < b.cls
    else if a.num != b.num then a.num < b.num
    else if a.text != b.text then StrLeq(a.text, b.text)
    else if a.rank != b.rank then a.rank < b.rank
    else StrLeq(a.id.name, b.id.name)
  }

  lemma KeyTotal(a: SortKey, b: SortKey)
    ensures KeyLeq(a, b) || KeyLeq(b, a)
    ensures KeyLeq(a, b) && KeyLeq(b, a) ==> a == b
  {
    StrTotal(a.text, b.text);
    StrTotal(a.id.name, b.id.name);
  }

  lemma KeyTransitive(a: SortKey, b: SortKey, c: SortKey)
    requires KeyLeq(a, b) && KeyLeq(b, c)
    ensures KeyLeq(a, c)
  {
    if StrLeq(a.text, b.text) && StrLeq(b.text, c.text) { StrTransitive(a.text, b.text, c.text); }
    if StrLeq(a.id.name, b.id.name) && StrLeq(b.id.name, c.id.name) { StrTransitive(a.id.name, b.id.name, c.id.name); }
    StrTotal(a.text, b.text);
    StrTotal(b.text, c.text);
  }

  /** The keys of a set of ids identify those ids. */
  predicate KeysIdentify(keys: map<Id, SortKey>)
  {
    forall k | k in keys :: keys[k].id == k
  }

  predicate IsLeast(keys: map<Id, SortKey>, s: set<Id>, m: Id)
    requires s <= keys.Keys
  {
    m in s && forall y | y in s :: KeyLeq(keys[m], keys[y])
  }

  lemma {:induction false} LeastExists(keys: map<Id, SortKey>, s: set<Id>)
    requires s <= keys.Keys && s != {}
    ensures exists m :: IsLeast(keys, s, m)
  {
    var x :| x in s;
    KeyTotal(keys[x], keys[x]);
    if s == {x} {
      assert IsLeast(keys, s, x);
    } else {
      LeastExists(keys, s - {x});
      var m :| IsLeast(keys, s - {x}, m);
      KeyTotal(keys[x], keys[m]);
      if KeyLeq(keys[m], keys[x]) {
        assert IsLeast(keys, s, m);
      } else {
        forall y | y in s ensures KeyLeq(keys[x], keys[y]) {
          if y != x { KeyTransitive(keys[x], keys[m], keys[y]); }
        }
        assert IsLeast(keys, s, x);
      }
    }
  }

  lemma LeastUnique(keys: map<Id, SortKey>, s: set<Id>, m: Id, n: Id)
    requires s <= keys.Keys && KeysIdentify(keys) && IsLeast(keys, s, m) && IsLeast(keys, s, n)
    ensures m == n
  {
    KeyTotal(keys[m], keys[n]);
  }

  /** The id that sorts first. */
  method Minimum(keys: map<Id, SortKey>, s: set<Id>) returns (m: Id)
    requires s <= keys.Keys && s != {}
    ensures IsLeast(keys, s, m)
  {
    LeastExists(keys, s);
    m :| m in s && IsLeast(keys, s, m);
  }

  predicate Precedes(keys: map<Id, SortKey>, a: Id, b: Id)
  {
    a in keys && b in keys && a != b && KeyLeq(keys[a], keys[b])
  }

  /** `q` lists the elements of `s`, each once, in increasing key order. */
  ghost predicate Lists(keys: map<Id, SortKey>, s: set<Id>, q: seq<Id>)
  {
    (forall x :: x in q <==> x in s) &&
    forall i, j | 0 <= i < j < |q| :: Precedes(keys, q[i], q[j])
  }

  /** Python's `sorted` on a set of ids. */
  method Sort(keys: map<Id, SortKey>, s: set<Id>) returns (q: seq<Id>)
    requires s <= keys.Keys && KeysIdentify(keys)
    ensures Lists(keys, s, q)
  {
    q := [];
    var rest := s;
    while rest != {}
      invariant rest <= s && Lists(keys, s - rest, q)
      invariant forall x, y | x in q && y in rest :: Precedes(keys, x, y)
    {
      var m := Minimum(keys, rest);
      assert forall y | y in rest && y != m :: Precedes(keys, m, y);
      q := q + [m];
      rest := rest - {m};
    }
    assert s - rest == s;
  }

  /** There is only one such list. */
  lemma {:induction false} ListsUnique(keys: map<Id, SortKey>, s: set<Id>, p: seq<Id>, q: seq<Id>)
    requires KeysIdentify(keys) && Lists(keys, s, p) && Lists(keys, s, q)
    ensures p == q
    decreases |p|
  {
    EmptyList(keys, s, p);
    EmptyList(keys, s, q);
    if s != {} {
      HeadIsLeast(keys, s, p);
      HeadIsLeast(keys, s, q);
      if p[0] != q[0] {
        assert Precedes(keys, p[0], q[0]) && Precedes(keys, q[0], p[0]);
        KeyTotal(keys[p[0]], keys[q[0]]);
      }
      ListsUnique(keys, s - {p[0]}, p[1..], q[1..]);
      assert p == [p[0]] + p[1..] && q == [q[0]] + q[1..];
    }
  }

  lemma EmptyList(keys: map<Id, SortKey>, s: set<Id>, q: seq<Id>)
    requires Lists(keys, s, q)
    ensures q == [] <==> s == {}
  {
    if x :| x in s { assert x in q; }
    if q != [] { assert q[0] in q; }
  }

  lemma HeadIsLeast(keys: map<Id, SortKey>, s: set<Id>, q: seq<Id>)
    requires Lists(keys, s, q) && q != []
    ensures q[0] in s && forall y | y in s && y != q[0] :: Precedes(keys, q[0], y)
  {
    assert q[0] in q;
    forall y | y in s && y != q[0] ensures Precedes(keys, q[0], y) {
      assert y in q;
      var j :| 0 <= j < |q| && q[j] == y;
    }
  }

  ghost predicate Increasing(q: seq<nat>) { forall i, j | 0 <= i < j < |q| :: q[i] < q[j] }

  ghost predicate Distinct(q: seq<Id>) { forall i, j | 0 <= i < j < |q| :: q[i] != q[j] }

  lemma AppendNew(q: seq<Id>, a: Id)
    requires Distinct(q) && a !in q
    ensures Distinct(q + [a])
  {
  }

  /** Keys that order ids alphabetically. */
  function Alphabetic(s: set<Id>): (keys: map<Id, SortKey>)
    ensures keys.Keys == s && KeysIdentify(keys)
  {
    map k | k in s :: SortKey(0, 0.0, "", 0, k)
  }
}
