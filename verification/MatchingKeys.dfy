/** The keys by which the baseline recognises findings: which findings share one. */
module MatchingKeys {
  import opened Orders
  import opened Handoffs
  import opened HandoffLint
  import opened Sorting

  // ---- sorted(paths) ---------------------------------------------------------------------------------------

  const LEXICAL: (string, string) -> bool := (a, b) => StrLeq(a, b)

  lemma LexicalIsTotal()
    ensures TotalOrder(LEXICAL)
  {
    forall a, b ensures (LEXICAL(a, b) || LEXICAL(b, a)) && (LEXICAL(a, b) && LEXICAL(b, a) ==> a == b) {
      StrTotal(a, b);
    }
    forall a, b, c | LEXICAL(a, b) && LEXICAL(b, c) ensures LEXICAL(a, c) {
      StrTransitive(a, b, c);
    }
  }

  function SortPaths(q: seq<string>): seq<string> { Sorted(LEXICAL, q) }

  /** Sorting forgets the order and nothing else. */
  lemma SortPathsForgetsOrder(p: seq<string>, q: seq<string>)
    ensures SortPaths(p) == SortPaths(q) <==> multiset(p) == multiset(q)
  {
    LexicalIsTotal();
    SortedForgetsOrder(LEXICAL, p, q);
  }

  lemma {:induction false} CountsOnce(q: seq<string>, s: string)
    requires NoRepeats(q)
    ensures multiset(q)[s] == if s in q then 1 else 0
  {
    if q != [] {
      CountsOnce(q[1..], s);
      assert q == [q[0]] + q[1..];
      assert q[0] !in q[1..];
    }
  }

  lemma SameSetSameMultiset(p: seq<string>, q: seq<string>)
    requires NoRepeats(p) && NoRepeats(q) && forall s :: s in p <==> s in q
    ensures multiset(p) == multiset(q) && |p| == |q|
  {
    forall s ensures multiset(p)[s] == multiset(q)[s] {
      CountsOnce(p, s);
      CountsOnce(q, s);
    }
    assert |multiset(p)| == |p| && |multiset(q)| == |q|;
  }

  // ---- joining with commas ---------------------------------------------------------------------------------

  predicate Free(c: char, s: string) { c !in s }

  function Join(q: seq<string>): string
  {
    if q == [] then "" else if |q| == 1 then q[0] else q[0] + [','] + Join(q[1..])
  }

  /** Two texts cut at the first occurrence of a character. */
  lemma CutAtFirst(c: char, p: string, u: string, q: string, v: string)
    requires Free(c, p) && Free(c, q) && p + [c] + u == q + [c] + v
    ensures p == q && u == v
  {
    var s, t := p + [c] + u, q + [c] + v;
    assert s[|p|] == c && t[|q|] == c;
    assert (forall i | 0 <= i < |p| :: s[i] == p[i]) && forall i | 0 <= i < |q| :: t[i] == q[i];
    assert |p| == |q|;
    assert p == s[..|p|] && q == t[..|q|] && u == s[|p| + 1..] && v == t[|q| + 1..];
  }

  /** Two texts cut at the last occurrence of a character. */
  lemma CutAtLast(c: char, p: string, u: string, q: string, v: string)
    requires Free(c, u) && Free(c, v) && p + [c] + u == q + [c] + v
    ensures p == q && u == v
  {
    var s, t := p + [c] + u, q + [c] + v;
    assert s[|p|] == c && t[|q|] == c;
    assert (forall i | |p| < i < |s| :: s[i] == u[i - |p| - 1]) && forall i | |q| < i < |t| :: t[i] == v[i - |q| - 1];
    assert |p| == |q|;
    assert p == s[..|p|] && q == t[..|q|] && u == s[|p| + 1..] && v == t[|q| + 1..];
  }

  ghost predicate AllFree(c: char, q: seq<string>) { forall s | s in q :: Free(c, s) }

  lemma {:induction false} JoinFree(c: char, q: seq<string>)
    requires AllFree(c, q) && c != ','
    ensures Free(c, Join(q))
  {
    if |q| == 1 {
      assert q[0] in q;
    } else if q != [] {
      assert q[0] in q && forall s | s in q[1..] :: s in q;
      JoinFree(c, q[1..]);
    }
  }

  /** Commas appear in the joined text exactly if there was something to join. */
  lemma JoinCommas(q: seq<string>)
    requires AllFree(',', q)
    ensures Free(',', Join(q)) <==> |q| <= 1
  {
    assert |q| == 1 ==> q[0] in q;
    assert |q| > 1 ==> Join(q)[|q[0]|] == ',';
  }

  /** The joined text determines a list of comma-free texts. */
  lemma {:induction false} JoinInjective(p: seq<string>, q: seq<string>)
    requires AllFree(',', p) && AllFree(',', q) && p != [] && q != [] && Join(p) == Join(q)
    ensures p == q
  {
    JoinCommas(p);
    JoinCommas(q);
    if |p| > 1 {
      assert p[0] in p && q[0] in q;
      assert (forall s | s in p[1..] :: s in p) && forall s | s in q[1..] :: s in q;
      CutAtFirst(',', p[0], Join(p[1..]), q[0], Join(q[1..]));
      JoinInjective(p[1..], q[1..]);
      assert p == [p[0]] + p[1..] && q == [q[0]] + q[1..];
    }
  }

  // ---- the key ---------------------------------------------------------------------------------------------

  function SeverityText(s: Severity): string
  {
    match s case Blocker => "BLOCKER" case Major => "MAJOR" case Minor => "MINOR"
  }

  function CodeNumber(c: Code): nat
  {
    match c
    case H001 => 1 case H002 => 2 case H003 => 3 case H004 => 4 case H005 => 5 case H006 => 6 case H007 => 7
    case H008 => 8 case H009 => 9 case H010 => 10 case H011 => 11 case H012 => 12 case H013 => 13
  }

  function CodeText(c: Code): string
  {
    var n := CodeNumber(c);
    if n < 10 then ['H', '0', '0', '0' + n as char] else ['H', '0', '1', '0' + (n - 10) as char]
  }

  const LATER := "later_completed:"

  /** What follows the path. */
  function Tail(f: Finding): string
  {
    f.message + if f.code == H009 then ['|'] + (LATER + Join(SortPaths(f.later))) else []
  }

  /** `matching_key_for`. */
  function MatchingKey(f: Finding): string
  {
    SeverityText(f.severity) + ['|'] + (CodeText(f.code) + ['|'] + (f.path + ['|'] + Tail(f)))
  }

  lemma SeverityTextInjective(s: Severity, t: Severity)
    ensures Free('|', SeverityText(s))
    ensures SeverityText(s) == SeverityText(t) ==> s == t
  {
    assert SeverityText(s)[1] == match s case Blocker => 'L' case Major => 'A' case Minor => 'I';
    assert SeverityText(t)[1] == match t case Blocker => 'L' case Major => 'A' case Minor => 'I';
  }

  lemma CodeNumberInjective(c: Code, d: Code)
    ensures CodeNumber(c) < 20
    ensures CodeNumber(c) == CodeNumber(d) ==> c == d
  {
  }

  lemma CodeTextInjective(c: Code, d: Code)
    ensures Free('|', CodeText(c))
    ensures CodeText(c) == CodeText(d) ==> c == d
  {
    CodeNumberInjective(c, d);
    CodeNumberInjective(d, c);
    assert CodeText(c)[2] == if CodeNumber(c) < 10 then '0' else '1';
    assert CodeText(d)[2] == if CodeNumber(d) < 10 then '0' else '1';
    assert CodeText(c)[3] as int == '0' as int + if CodeNumber(c) < 10 then CodeNumber(c) else CodeNumber(c) - 10;
    assert CodeText(d)[3] as int == '0' as int + if CodeNumber(d) < 10 then CodeNumber(d) else CodeNumber(d) - 10;
  }

  /** Whatever paths and messages contain, the key determines severity and code. */
  lemma KeyDeterminesCode(f: Finding, g: Finding)
    requires MatchingKey(f) == MatchingKey(g)
    ensures f.severity == g.severity && f.code == g.code && f.path + ['|'] + Tail(f) == g.path + ['|'] + Tail(g)
  {
    SeverityTextInjective(f.severity, g.severity);
    SeverityTextInjective(g.severity, f.severity);
    CodeTextInjective(f.code, g.code);
    CodeTextInjective(g.code, f.code);
    var u, v := f.path + ['|'] + Tail(f), g.path + ['|'] + Tail(g);
    CutAtFirst('|', SeverityText(f.severity), CodeText(f.code) + ['|'] + u, SeverityText(g.severity),
      CodeText(g.code) + ['|'] + v);
    CutAtFirst('|', CodeText(f.code), u, CodeText(g.code), v);
  }

  /** An orphan has a bypassing step, and no bar or comma in the paths; any other finding has no bar in its message. */
  ghost predicate Clean(f: Finding)
  {
    if f.code == H009 then PathsFree(f) && f.later != [] else Free('|', f.message)
  }

  ghost predicate PathsFree(f: Finding) { Free('|', f.path) && AllFree('|', f.later) && AllFree(',', f.later) }

  /** The two findings say the same. */
  ghost predicate Same(f: Finding, g: Finding)
  {
    f.code == g.code && f.severity == g.severity && f.path == g.path && f.message == g.message
    && (f.code == H009 ==> multiset(f.later) == multiset(g.later))
  }

  lemma SortedClean(f: Finding)
    requires Clean(f) && f.code == H009
    ensures var q := SortPaths(f.later); AllFree('|', q) && AllFree(',', q) && q != []
  {
    LexicalIsTotal();
    SortedSorts(LEXICAL, f.later);
    forall s | s in SortPaths(f.later) ensures s in f.later {
      assert s in multiset(SortPaths(f.later));
    }
    assert |multiset(f.later)| == |f.later| && |multiset(SortPaths(f.later))| == |SortPaths(f.later)|;
  }

  lemma LaterFree()
    ensures Free('|', LATER)
  {
  }

  /** Two orphans with one key are bypassed by the same steps and have one message. */
  lemma OrphanTailInjective(f: Finding, g: Finding)
    requires Clean(f) && Clean(g) && f.code == g.code == H009 && Tail(f) == Tail(g)
    ensures f.message == g.message && multiset(f.later) == multiset(g.later)
  {
    var p, q := SortPaths(f.later), SortPaths(g.later);
    SortedClean(f);
    SortedClean(g);
    JoinFree('|', p);
    JoinFree('|', q);
    LaterFree();
    assert Tail(f) == f.message + ['|'] + (LATER + Join(p)) && Tail(g) == g.message + ['|'] + (LATER + Join(q));
    CutAtLast('|', f.message, LATER + Join(p), g.message, LATER + Join(q));
    assert (LATER + Join(p))[|LATER|..] == Join(p) && (LATER + Join(q))[|LATER|..] == Join(q);
    JoinInjective(p, q);
    SortPathsForgetsOrder(f.later, g.later);
  }

  /** Clean findings share a key exactly if they say the same. */
  lemma KeyMeaning(f: Finding, g: Finding)
    requires Clean(f) && Clean(g)
    ensures MatchingKey(f) == MatchingKey(g) <==> Same(f, g)
  {
    if MatchingKey(f) == MatchingKey(g) {
      KeyDeterminesCode(f, g);
      if f.code == H009 {
        CutAtFirst('|', f.path, Tail(f), g.path, Tail(g));
        OrphanTailInjective(f, g);
      } else {
        assert Tail(f) == f.message && Tail(g) == g.message;
        CutAtLast('|', f.path, f.message, g.path, g.message);
      }
    }
    if Same(f, g) { SameSharesKey(f, g); }
  }

  lemma SameSharesKey(f: Finding, g: Finding)
    requires Same(f, g)
    ensures MatchingKey(f) == MatchingKey(g)
  {
    SortPathsForgetsOrder(f.later, g.later);
    assert Tail(f) == Tail(g);
  }

  /** For orphans the comma condition is needed: bypassed by different steps, two can share a key. */
  lemma CommaCollision(path: string, message: string, a: string, b: string, c: string)
    requires StrLeq(a + [','] + b, c) && StrLeq(a, b + [','] + c) && a != c
    ensures var f := Finding(H009, Major, path, message, [a + [','] + b, c]);
            var g := Finding(H009, Major, path, message, [a, b + [','] + c]);
            MatchingKey(f) == MatchingKey(g) && |f.later| == |g.later| && !Same(f, g)
  {
    var p, q := [a + [','] + b, c], [a, b + [','] + c];
    JoinsAlike(a, b, c);
    SortedPair(LEXICAL, p[0], p[1]);
    SortedPair(LEXICAL, q[0], q[1]);
    var f, g := Finding(H009, Major, path, message, p), Finding(H009, Major, path, message, q);
    assert Tail(f) == Tail(g);
    assert q[0] in multiset(q) && |a| < |p[0]|;
    assert a !in multiset(p);
  }

  lemma JoinsAlike(a: string, b: string, c: string)
    ensures Join([a + [','] + b, c]) == Join([a, b + [','] + c])
  {
    var p, q := [a + [','] + b, c], [a, b + [','] + c];
    assert p[1..] == [c] && q[1..] == [b + [','] + c];
    assert a + [','] + b + [','] + c == a + [','] + (b + [','] + c);
  }

  /** For example, with `h` the text h/step- and `e` the text .json: the step h/step-3.json and one in a directory named
      step-1.json,h against the step h/step-1.json and one in a directory named step-2.json,h. */
  lemma CommaExample(path: string, message: string, h: string, e: string)
    ensures var a, b, c := h + (['1'] + e), h + (['2'] + e), h + (['3'] + e);
            var f := Finding(H009, Major, path, message, [a + [','] + b, c]);
            var g := Finding(H009, Major, path, message, [a, b + [','] + c]);
            MatchingKey(f) == MatchingKey(g) && |f.later| == |g.later| && !Same(f, g)
  {
    var a, b, c := h + (['1'] + e), h + (['2'] + e), h + (['3'] + e);
    DifferAt(h, '1', e + [','] + b, '3', e);
    DifferAt(h, '1', e, '2', e + [','] + c);
    assert a + [','] + b == h + (['1'] + (e + [','] + b)) && b + [','] + c == h + (['2'] + (e + [','] + c));
    assert a[|h|] != c[|h|];
    CommaCollision(path, message, a, b, c);
  }

  lemma {:induction false} DifferAt(p: string, x: char, u: string, y: char, v: string)
    requires x < y
    ensures StrLeq(p + ([x] + u), p + ([y] + v))
  {
    if p == [] {
      assert p + ([x] + u) == [x] + u && p + ([y] + v) == [y] + v;
    } else {
      assert (p + ([x] + u))[1..] == p[1..] + ([x] + u) && (p + ([y] + v))[1..] == p[1..] + ([y] + v);
      DifferAt(p[1..], x, u, y, v);
    }
  }

  /** For orphans the bar condition is needed: where the wording puts the run id between a head and a tail, a run id
      with the head in it lets path and message be cut in two ways. */
  lemma PathBarCollision(env: Env, status: Json, h: string, t: string, p: string, r: string, s: string,
                         later: seq<string>)
    requires forall run: string :: env.orphan(status, |later|, Str(run)) == h + run + t
    ensures var f := Finding(H009, Major, p, env.orphan(status, |later|, Str(r + ['|'] + h + s)), later);
            var g := Finding(H009, Major, p + ['|'] + h + r, env.orphan(status, |later|, Str(s)), later);
            f.path != g.path && MatchingKey(f) == MatchingKey(g)
  {
    var f := Finding(H009, Major, p, h + (r + ['|'] + h + s) + t, later);
    var g := Finding(H009, Major, p + ['|'] + h + r, h + s + t, later);
    var rest := ['|'] + (LATER + Join(SortPaths(later)));
    assert Tail(f) == h + (r + ['|'] + h + s) + t + rest && Tail(g) == h + s + t + rest;
    assert f.path + ['|'] + Tail(f) == g.path + ['|'] + Tail(g);
    assert |f.path| < |g.path|;
  }

  /** Or with bars in the path of a bypassing step: the message can end at either bar. */
  lemma LaterBarCollision(path: string, m: string, x: string, y: string)
    ensures var cut := ['|'] + LATER;
            var f, g := Finding(H009, Major, path, m, [x + cut + y]), Finding(H009, Major, path, m + cut + x, [y]);
            f.later[0] != g.later[0] && MatchingKey(f) == MatchingKey(g)
  {
    var cut := ['|'] + LATER;
    var f, g := Finding(H009, Major, path, m, [x + cut + y]), Finding(H009, Major, path, m + cut + x, [y]);
    SortOne(x + cut + y);
    SortOne(y);
    assert Tail(f) == m + cut + (x + cut + y) && Tail(g) == m + cut + x + cut + y;
    assert Tail(f) == Tail(g);
    assert |f.later[0]| != |g.later[0]|;
  }

  lemma SortOne(s: string)
    ensures SortPaths([s]) == [s] && Join([s]) == s
  {
    StrTotal(s, s);
    SortedPair(LEXICAL, s, s);
  }

  lemma Regrouped(a: string, b: string, path: string, tail: string)
    ensures a + ['|'] + (b + ['|'] + (path + ['|'] + tail)) == (a + ['|'] + b + ['|']) + path + ['|'] + tail
  {
  }

  /** The form of a key. */
  lemma KeyForm(f: Finding)
    ensures f.code == H003 && f.severity == Blocker ==>
              MatchingKey(f) == "BLOCKER|H003|" + f.path + ['|'] + f.message
    ensures f.code == H009 && f.severity == Major ==>
              MatchingKey(f) ==
              "MAJOR|H009|" + f.path + ['|'] + (f.message + ['|'] + ("later_completed:" + Join(SortPaths(f.later))))
  {
    Regrouped(SeverityText(f.severity), CodeText(f.code), f.path, Tail(f));
    assert CodeText(H003) == "H003" && CodeText(H009) == "H009";
    assert "BLOCKER" + ['|'] + "H003" + ['|'] == "BLOCKER|H003|";
    assert "MAJOR" + ['|'] + "H009" + ['|'] == "MAJOR|H009|";
  }

  lemma TextForm()
    ensures SeverityText(Blocker) == "BLOCKER" && SeverityText(Major) == "MAJOR" && SeverityText(Minor) == "MINOR"
    ensures forall c: Code :: |CodeText(c)| == 4 && CodeText(c)[..2] == "H0"
    ensures CodeText(H001)[2..] == "01" && CodeText(H002)[2..] == "02" && CodeText(H003)[2..] == "03"
    ensures CodeText(H004)[2..] == "04" && CodeText(H005)[2..] == "05" && CodeText(H006)[2..] == "06"
    ensures CodeText(H007)[2..] == "07" && CodeText(H008)[2..] == "08" && CodeText(H009)[2..] == "09"
    ensures CodeText(H010)[2..] == "10" && CodeText(H011)[2..] == "11" && CodeText(H012)[2..] == "12"
    ensures CodeText(H013)[2..] == "13"
  {
  }

  lemma JoinForm(s: string, t: string)
    ensures Join([]) == [] && Join([s]) == s && Join([s, t]) == s + [','] + t
  {
    assert [s, t][1..] == [t];
  }
}
