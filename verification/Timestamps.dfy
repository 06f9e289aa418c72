/** Timestamps of the shape YYYY-MM-DDTHH:MM:SSZ: the order of the strings and the order of time. */
module Timestamps {
  import opened Orders
  import opened Registry

  /** Unicode's decimal digits: the value of each character that `\d` matches. */
  type Digits = char -> Option<nat>

  /** What is assumed of them: the ASCII digits are digits, no digit of another script comes before them. */
  ghost predicate Unicode(d: Digits)
  {
    forall c: char ::
      && ('0' <= c <= '9' ==> d(c) == Some((c - '0') as nat))
      && (d(c).Some? ==> d(c).value <= 9 && (c <= '9' ==> '0' <= c))
  }

  const SHAPE := "dddd-dd-ddTdd:dd:ddZ"

  predicate ShapeAt(d: Digits, s: string, i: nat)
    requires i < |SHAPE| && i < |s|
  {
    if SHAPE[i] == 'd' then d(s[i]).Some? else s[i] == SHAPE[i]
  }

  /** The ISO_Z pattern; its `$` also matches before a final newline. */
  predicate IsoZ(d: Digits, s: string)
  {
    (|s| == 20 || (|s| == 21 && s[20] == '\n')) && forall i: nat | i < 20 :: ShapeAt(d, s, i)
  }

  /** Four, two and two digits with dashes, a T, three times two digits with colons, and a Z. */
  ghost predicate LooksLikeStamp(d: Digits, s: string)
  {
    && (|s| == 20 || (|s| == 21 && s[20] == '\n'))
    && (forall i | i in {0, 1, 2, 3, 5, 6, 8, 9, 11, 12, 14, 15, 17, 18} :: d(s[i]).Some?)
    && s[4] == s[7] == '-' && s[10] == 'T' && s[13] == s[16] == ':' && s[19] == 'Z'
  }

  lemma StampMeaning(d: Digits, s: string)
    ensures IsoZ(d, s) <==> LooksLikeStamp(d, s)
  {
    if LooksLikeStamp(d, s) {
      forall i: nat | i < 20 ensures ShapeAt(d, s, i) {
        assert i in {0, 1, 2, 3, 5, 6, 8, 9, 11, 12, 14, 15, 17, 18} || i in {4, 7, 10, 13, 16, 19};
      }
    }
    if IsoZ(d, s) {
      forall i | i in {0, 1, 2, 3, 5, 6, 8, 9, 11, 12, 14, 15, 17, 18} ensures d(s[i]).Some? {
        assert ShapeAt(d, s, i);
      }
      assert ShapeAt(d, s, 4) && ShapeAt(d, s, 7) && ShapeAt(d, s, 10) && ShapeAt(d, s, 13);
      assert ShapeAt(d, s, 16) && ShapeAt(d, s, 19);
    }
  }

  /** Only ASCII digits, and no final newline. */
  predicate Plain(s: string) { |s| == 20 && forall i: nat | i < 20 && SHAPE[i] == 'd' :: '0' <= s[i] <= '9' }

  /** Date and time of day. */
  datatype Moment = Moment(year: nat, month: nat, day: nat, hour: nat, minute: nat, second: nat)

  function Value(d: Digits, c: char): nat { match d(c) case Some(n) => n case None => 0 }

  /** The number that a run of digits denotes. */
  function Number(d: Digits, s: string): nat
  {
    if s == [] then 0 else 10 * Number(d, s[..|s| - 1]) + Value(d, s[|s| - 1])
  }

  function MomentOf(d: Digits, s: string): Moment
    requires |s| >= 20
  {
    Moment(Number(d, s[0..4]), Number(d, s[5..7]), Number(d, s[8..10]),
           Number(d, s[11..13]), Number(d, s[14..16]), Number(d, s[17..19]))
  }

  // ---- the calendar ------------------------------------------------------------------------------------

  predicate LeapYear(y: nat) { y % 4 == 0 && (y % 100 != 0 || y % 400 == 0) }

  function YearLength(y: nat): nat { if LeapYear(y) then 366 else 365 }

  function MonthLength(y: nat, m: nat): nat
  {
    if m == 2 then (if LeapYear(y) then 29 else 28)
    else if m == 4 || m == 6 || m == 9 || m == 11 then 30
    else 31
  }

  /** A date of the proleptic Gregorian calendar and a time of day without leap seconds. */
  predicate OnCalendar(t: Moment)
  {
    1 <= t.year && 1 <= t.month <= 12 && 1 <= t.day <= MonthLength(t.year, t.month) &&
    t.hour < 24 && t.minute < 60 && t.second < 60
  }

  /** Days from 1 January of year 1 to 1 January of year `y`. */
  function DaysBeforeYear(y: nat): nat { if y <= 1 then 0 else DaysBeforeYear(y - 1) + YearLength(y - 1) }

  function DaysBeforeMonth(y: nat, m: nat): nat
  {
    if m <= 1 then 0 else DaysBeforeMonth(y, m - 1) + MonthLength(y, m - 1)
  }

  /** Seconds since the start of year 1. */
  function Seconds(t: Moment): int
  {
    (((DaysBeforeYear(t.year) + DaysBeforeMonth(t.year, t.month) + t.day - 1) * 24 + t.hour) * 60 + t.minute) * 60
    + t.second
  }

  lemma MonthLengths(y: nat, m: nat)
    requires 1 <= m <= 12
    ensures MonthLength(y, m) == 31 <==> m in {1, 3, 5, 7, 8, 10, 12}
    ensures MonthLength(y, m) == 30 <==> m in {4, 6, 9, 11}
    ensures m == 2 ==> MonthLength(y, m) == if y % 400 == 0 || (y % 4 == 0 && y % 100 != 0) then 29 else 28
  {
  }

  /** The count starts with year 1, and one unit later is as many seconds later as the unit has. */
  lemma UnitsMeaning(t: Moment)
    ensures Seconds(t) == Seconds(Moment(t.year, t.month, 1, 0, 0, 0)) +
                          86400 * (t.day - 1) + 3600 * t.hour + 60 * t.minute + t.second
  {
    var days := DaysBeforeYear(t.year) + DaysBeforeMonth(t.year, t.month);
    assert Seconds(Moment(t.year, t.month, 1, 0, 0, 0)) == days * 24 * 60 * 60;
    assert Seconds(t) == (((days + t.day - 1) * 24 + t.hour) * 60 + t.minute) * 60 + t.second;
  }

  /** A month is as long as it has days, and January follows December. */
  lemma MonthsMeaning(y: nat, m: nat)
    requires y >= 1 && 1 <= m <= 12
    ensures var next := if m < 12 then Moment(y, m + 1, 1, 0, 0, 0) else Moment(y + 1, 1, 1, 0, 0, 0);
            Seconds(next) == Seconds(Moment(y, m, 1, 0, 0, 0)) + 86400 * MonthLength(y, m)
  {
    if m < 12 {
      MonthStep(y, m);
    } else {
      TwelveMonths(y);
      assert DaysBeforeMonth(y, 13) == DaysBeforeMonth(y, 12) + MonthLength(y, 12);
    }
  }

  lemma MonthStep(y: nat, m: nat)
    requires 1 <= m
    ensures Seconds(Moment(y, m + 1, 1, 0, 0, 0)) == Seconds(Moment(y, m, 1, 0, 0, 0)) + 86400 * MonthLength(y, m)
  {
    assert DaysBeforeMonth(y, m + 1) == DaysBeforeMonth(y, m) + MonthLength(y, m);
  }

  lemma Fourths(k: nat)
    requires k >= 1
    ensures k / 4 == (k - 1) / 4 + if k % 4 == 0 then 1 else 0
  {
    var q, r := (k - 1) / 4, (k - 1) % 4;
    assert k - 1 == 4 * q + r;
    if r == 3 { assert k == 4 * (q + 1); } else { assert k == 4 * q + (r + 1); }
  }

  lemma Hundredths(k: nat)
    requires k >= 1
    ensures k / 100 == (k - 1) / 100 + if k % 100 == 0 then 1 else 0
  {
    var q, r := (k - 1) / 100, (k - 1) % 100;
    assert k - 1 == 100 * q + r;
    if r == 99 { assert k == 100 * (q + 1); } else { assert k == 100 * q + (r + 1); }
  }

  lemma FourHundredths(k: nat)
    requires k >= 1
    ensures k / 400 == (k - 1) / 400 + if k % 400 == 0 then 1 else 0
  {
    var q, r := (k - 1) / 400, (k - 1) % 400;
    assert k - 1 == 400 * q + r;
    if r == 399 { assert k == 400 * (q + 1); } else { assert k == 400 * q + (r + 1); }
  }

  lemma CenturiesDivide(k: nat)
    ensures k % 100 == 0 ==> k % 4 == 0
    ensures k % 400 == 0 ==> k % 100 == 0
  {
    if k % 100 == 0 { assert k == 4 * (25 * (k / 100)); }
    if k % 400 == 0 { assert k == 100 * (4 * (k / 400)); }
  }

  lemma LeapYearsUpTo(k: nat)
    requires k >= 1
    ensures k / 4 - k / 100 + k / 400 == (k - 1) / 4 - (k - 1) / 100 + (k - 1) / 400 + if LeapYear(k) then 1 else 0
  {
    Fourths(k);
    Hundredths(k);
    FourHundredths(k);
    CenturiesDivide(k);
  }

  /** The closed form by which `datetime` counts days. */
  lemma {:induction false} DaysBeforeYearClosed(y: nat)
    requires y >= 1
    ensures DaysBeforeYear(y) == 365 * (y - 1) + (y - 1) / 4 - (y - 1) / 100 + (y - 1) / 400
  {
    if y > 1 {
      DaysBeforeYearClosed(y - 1);
      LeapYearsUpTo(y - 1);
    }
  }

  lemma {:induction false} YearsAscend(x: nat, y: nat)
    requires 1 <= x < y
    ensures DaysBeforeYear(x) + YearLength(x) <= DaysBeforeYear(y)
  {
    if x < y - 1 { YearsAscend(x, y - 1); }
  }

  lemma {:induction false} MonthsAscend(y: nat, m: nat, n: nat)
    requires 1 <= m < n
    ensures DaysBeforeMonth(y, m) + MonthLength(y, m) <= DaysBeforeMonth(y, n)
  {
    if m < n - 1 { MonthsAscend(y, m, n - 1); }
  }

  lemma TwelveMonths(y: nat)
    ensures DaysBeforeMonth(y, 13) == YearLength(y)
  {
    var feb := MonthLength(y, 2);
    assert DaysBeforeMonth(y, 2) == 31;
    assert DaysBeforeMonth(y, 3) == 31 + feb;
    assert DaysBeforeMonth(y, 5) == 92 + feb;
    assert DaysBeforeMonth(y, 7) == 153 + feb;
    assert DaysBeforeMonth(y, 9) == 215 + feb;
    assert DaysBeforeMonth(y, 11) == 276 + feb;
  }

  /** The parts of two moments, compared from the year down. */
  predicate Earlier(a: Moment, b: Moment)
  {
    if a.year != b.year then a.year < b.year
    else if a.month != b.month then a.month < b.month
    else if a.day != b.day then a.day < b.day
    else if a.hour != b.hour then a.hour < b.hour
    else if a.minute != b.minute then a.minute < b.minute
    else a.second < b.second
  }

  lemma EarlierIsLessTime(a: Moment, b: Moment)
    requires OnCalendar(a) && OnCalendar(b) && Earlier(a, b)
    ensures Seconds(a) < Seconds(b)
  {
    TwelveMonths(a.year);
    MonthsAscend(a.year, a.month, 13);
    if a.year < b.year { YearsAscend(a.year, b.year); }
    if a.year == b.year && a.month < b.month { MonthsAscend(a.year, a.month, b.month); }
  }

  /** Counting seconds orders moments as comparing their parts does. */
  lemma TimeOrder(a: Moment, b: Moment)
    requires OnCalendar(a) && OnCalendar(b)
    ensures Seconds(a) < Seconds(b) <==> Earlier(a, b)
    ensures Seconds(a) == Seconds(b) <==> a == b
  {
    if Earlier(a, b) { EarlierIsLessTime(a, b); }
    if Earlier(b, a) { EarlierIsLessTime(b, a); }
    assert a == b || Earlier(a, b) || Earlier(b, a);
  }

  // ---- the order of the strings ------------------------------------------------------------------------

  predicate StrLess(a: string, b: string) { !StrLeq(b, a) }

  lemma {:induction false} LessByParts(p: string, q: string, u: string, v: string)
    requires |p| == |q|
    ensures StrLess(p + u, q + v) <==> StrLess(p, q) || (p == q && StrLess(u, v))
  {
    if p == [] {
      assert p + u == u && q + v == v;
    } else {
      assert (p + u)[1..] == p[1..] + u && (q + v)[1..] == q[1..] + v;
      assert p == [p[0]] + p[1..] && q == [q[0]] + q[1..];
      LessByParts(p[1..], q[1..], u, v);
    }
  }

  lemma LessThanItself(p: string)
    ensures !StrLess(p, p)
  {
    StrTotal(p, p);
  }

  predicate Ascii(s: string) { forall i | 0 <= i < |s| :: '0' <= s[i] <= '9' }

  /** Runs of ASCII digits of one length compare as their numbers do. */
  lemma {:induction false} LessIsSmaller(d: Digits, p: string, q: string)
    requires Unicode(d) && |p| == |q| && Ascii(p) && Ascii(q)
    ensures StrLess(p, q) <==> Number(d, p) < Number(d, q)
    ensures p == q <==> Number(d, p) == Number(d, q)
  {
    if p != [] {
      var n := |p| - 1;
      var a, b := p[..n], q[..n];
      assert p == a + [p[n]] && q == b + [q[n]];
      LessIsSmaller(d, a, b);
      LessByParts(a, b, [p[n]], [q[n]]);
      assert Value(d, p[n]) == (p[n] - '0') as nat && Value(d, q[n]) == (q[n] - '0') as nat;
      assert StrLess([p[n]], [q[n]]) <==> p[n] < q[n] by { OneCharacter(p[n], q[n]); }
    }
  }

  lemma OneCharacter(a: char, b: char)
    ensures StrLess([a], [b]) <==> a < b
  {
    assert StrLeq([b], [a]) <==> b < a || (b == a && StrLeq([b][1..], [a][1..]));
  }

  /** Take the first `n` digits and the separator after them off both strings. */
  lemma TakeField(d: Digits, a: string, b: string, n: nat)
    requires Unicode(d) && |a| == |b| > n && Ascii(a[..n]) && Ascii(b[..n]) && a[n] == b[n]
    ensures StrLess(a, b) <==>
            Number(d, a[..n]) < Number(d, b[..n]) ||
            (Number(d, a[..n]) == Number(d, b[..n]) && StrLess(a[n + 1..], b[n + 1..]))
    ensures a == b <==> Number(d, a[..n]) == Number(d, b[..n]) && a[n + 1..] == b[n + 1..]
  {
    var x, y := [a[n]] + a[n + 1..], [b[n]] + b[n + 1..];
    assert a == a[..n] + x && b == b[..n] + y;
    LessByParts(a[..n], b[..n], x, y);
    LessByParts([a[n]], [b[n]], a[n + 1..], b[n + 1..]);
    LessThanItself([a[n]]);
    LessIsSmaller(d, a[..n], b[..n]);
  }

  lemma FieldsOfTail(s: string, from: nat, i: nat, j: nat)
    requires from + i <= from + j <= |s|
    ensures s[from..][i..j] == s[from + i..from + j] && s[from..][j..] == s[from + j..]
  {
  }

  /** How two strings compare from position `k` on. */
  datatype Comparison = Comparison(less: bool, same: bool)

  function Compare(a: string, b: string, k: nat): Comparison
    requires k <= |a| && k <= |b|
  {
    Comparison(StrLess(a[k..], b[k..]), a[k..] == b[k..])
  }

  /** A field with the numbers `x` and `y`, followed by the rest. */
  function Then(x: nat, y: nat, rest: Comparison): Comparison
  {
    Comparison(x < y || (x == y && rest.less), x == y && rest.same)
  }

  /** A field of `n` digits starts at position `k`, and one other character follows. */
  predicate IsField(k: nat, n: nat)
  {
    k + n < 20 && SHAPE[k + n] != 'd' && forall i | k <= i < k + n :: SHAPE[i] == 'd'
  }

  lemma StampFields()
    ensures IsField(0, 4) && IsField(5, 2) && IsField(8, 2) && IsField(11, 2) && IsField(14, 2) && IsField(17, 2)
  {
  }

  lemma PlainTail(d: Digits, a: string, b: string, k: nat, n: nat)
    requires Unicode(d) && IsoZ(d, a) && IsoZ(d, b) && Plain(a) && Plain(b)
    requires IsField(k, n)
    ensures Compare(a, b, k) == Then(Number(d, a[k..k + n]), Number(d, b[k..k + n]), Compare(a, b, k + n + 1))
  {
    FieldsOfTail(a, k, 0, n);
    FieldsOfTail(b, k, 0, n);
    FieldsOfTail(a, k, 0, n + 1);
    FieldsOfTail(b, k, 0, n + 1);
    assert ShapeAt(d, a, k + n) && ShapeAt(d, b, k + n);
    TakeField(d, a[k..], b[k..], n);
  }

  lemma PlainCompareSecond(d: Digits, a: string, b: string)
    requires Unicode(d) && IsoZ(d, a) && IsoZ(d, b) && Plain(a) && Plain(b)
    ensures Compare(a, b, 17) == Then(MomentOf(d, a).second, MomentOf(d, b).second, Comparison(false, true))
  {
    StampFields();
    PlainTail(d, a, b, 17, 2);
    assert a[20..] == b[20..] == [];
  }

  lemma PlainCompareTime(d: Digits, a: string, b: string)
    requires Unicode(d) && IsoZ(d, a) && IsoZ(d, b) && Plain(a) && Plain(b)
    ensures var x, y := MomentOf(d, a), MomentOf(d, b);
            Compare(a, b, 11) == Then(x.hour, y.hour, Then(x.minute, y.minute, Then(x.second, y.second,
                                 Comparison(false, true))))
  {
    StampFields();
    PlainTail(d, a, b, 11, 2);
    PlainTail(d, a, b, 14, 2);
    PlainCompareSecond(d, a, b);
  }

  lemma PlainCompareDay(d: Digits, a: string, b: string)
    requires Unicode(d) && IsoZ(d, a) && IsoZ(d, b) && Plain(a) && Plain(b)
    ensures var x, y := MomentOf(d, a), MomentOf(d, b);
            Compare(a, b, 5) == Then(x.month, y.month, Then(x.day, y.day, Compare(a, b, 11)))
  {
    StampFields();
    PlainTail(d, a, b, 5, 2);
    PlainTail(d, a, b, 8, 2);
  }

  lemma PlainCompareDate(d: Digits, a: string, b: string)
    requires Unicode(d) && IsoZ(d, a) && IsoZ(d, b) && Plain(a) && Plain(b)
    ensures var x, y := MomentOf(d, a), MomentOf(d, b);
            Compare(a, b, 0) == Then(x.year, y.year, Then(x.month, y.month, Then(x.day, y.day, Compare(a, b, 11))))
  {
    StampFields();
    PlainTail(d, a, b, 0, 4);
    PlainCompareDay(d, a, b);
  }

  /** Plain strings compare as their parts do. */
  lemma PlainOrder(d: Digits, a: string, b: string)
    requires Unicode(d) && IsoZ(d, a) && IsoZ(d, b) && Plain(a) && Plain(b)
    ensures StrLess(a, b) <==> Earlier(MomentOf(d, a), MomentOf(d, b))
    ensures a == b <==> MomentOf(d, a) == MomentOf(d, b)
  {
    PlainCompareDate(d, a, b);
    PlainCompareTime(d, a, b);
    assert a[0..] == a && b[0..] == b;
  }

  /** For plain stamps on the calendar, string order is time order. */
  lemma LexicalIsChronological(d: Digits, a: string, b: string)
    requires Unicode(d) && IsoZ(d, a) && IsoZ(d, b) && Plain(a) && Plain(b)
    requires OnCalendar(MomentOf(d, a)) && OnCalendar(MomentOf(d, b))
    ensures StrLess(a, b) <==> Seconds(MomentOf(d, a)) < Seconds(MomentOf(d, b))
    ensures a == b <==> Seconds(MomentOf(d, a)) == Seconds(MomentOf(d, b))
  {
    PlainOrder(d, a, b);
    TimeOrder(MomentOf(d, a), MomentOf(d, b));
  }

  // ---- stamps that are not plain -----------------------------------------------------------------------

  /** The plain spelling of a stamp. */
  function Plainly(d: Digits, s: string): (p: string)
    requires Unicode(d) && IsoZ(d, s)
    ensures |p| == 20
    ensures forall i: nat | i < 20 ::
              p[i] == if SHAPE[i] == 'd' then '0' + Value(d, s[i]) as char else s[i]
  {
    seq(20, i requires 0 <= i < 20 =>
      assert ShapeAt(d, s, i); if SHAPE[i] == 'd' then '0' + Value(d, s[i]) as char else s[i])
  }

  lemma {:induction false} SameNumber(d: Digits, p: string, q: string)
    requires |p| == |q| && forall i | 0 <= i < |p| :: Value(d, p[i]) == Value(d, q[i])
    ensures Number(d, p) == Number(d, q)
  {
    if p != [] { SameNumber(d, p[..|p| - 1], q[..|p| - 1]); }
  }

  lemma PlainlyMeansTheSame(d: Digits, s: string)
    requires Unicode(d) && IsoZ(d, s)
    ensures var p := Plainly(d, s); IsoZ(d, p) && Plain(p) && MomentOf(d, p) == MomentOf(d, s)
  {
    var p := Plainly(d, s);
    forall i: nat | i < 20
      ensures ShapeAt(d, p, i) && (SHAPE[i] == 'd' ==> '0' <= p[i] <= '9' && Value(d, p[i]) == Value(d, s[i]))
    {
      assert ShapeAt(d, s, i);
    }
    SameNumber(d, p[0..4], s[0..4]);
    SameNumber(d, p[5..7], s[5..7]);
    SameNumber(d, p[8..10], s[8..10]);
    SameNumber(d, p[11..13], s[11..13]);
    SameNumber(d, p[14..16], s[14..16]);
    SameNumber(d, p[17..19], s[17..19]);
  }

  lemma {:induction false} SmallerEverywhere(p: string, s: string)
    requires |p| <= |s| && p != s && forall i | 0 <= i < |p| :: p[i] <= s[i]
    ensures StrLess(p, s)
  {
    if p != [] && p[0] == s[0] {
      assert p == [p[0]] + p[1..] && s == [s[0]] + s[1..];
      SmallerEverywhere(p[1..], s[1..]);
    }
  }

  /** A stamp that is not plain sorts after its plain spelling, which is the same moment. */
  lemma PlainSpellingSortsFirst(d: Digits, s: string)
    requires Unicode(d) && IsoZ(d, s) && !Plain(s)
    ensures StrLess(Plainly(d, s), s)
  {
    var p := Plainly(d, s);
    PlainlyMeansTheSame(d, s);
    forall i | 0 <= i < 20 ensures p[i] <= s[i] {
      assert ShapeAt(d, s, i);
    }
    SmallerEverywhere(p, s);
  }

  /** `s` sorts against every plain stamp as its moment does. */
  ghost predicate SortsByTime(d: Digits, s: string)
    requires IsoZ(d, s)
  {
    forall p: string | IsoZ(d, p) && Plain(p) && OnCalendar(MomentOf(d, p)) ::
      && (StrLess(p, s) <==> Seconds(MomentOf(d, p)) < Seconds(MomentOf(d, s)))
      && (StrLess(s, p) <==> Seconds(MomentOf(d, s)) < Seconds(MomentOf(d, p)))
  }

  /** Exactly the plain stamps sort by time. */
  lemma SortsByTimeIffPlain(d: Digits, s: string)
    requires Unicode(d) && IsoZ(d, s) && OnCalendar(MomentOf(d, s))
    ensures SortsByTime(d, s) <==> Plain(s)
  {
    if Plain(s) {
      forall p: string | IsoZ(d, p) && Plain(p) && OnCalendar(MomentOf(d, p))
        ensures StrLess(p, s) <==> Seconds(MomentOf(d, p)) < Seconds(MomentOf(d, s))
        ensures StrLess(s, p) <==> Seconds(MomentOf(d, s)) < Seconds(MomentOf(d, p))
      {
        LexicalIsChronological(d, p, s);
        LexicalIsChronological(d, s, p);
      }
    } else {
      PlainlyMeansTheSame(d, s);
      PlainSpellingSortsFirst(d, s);
    }
  }

  /** A final newline: the same moment, but later in the order of the strings. */
  lemma NewlineSortsLater(d: Digits, p: string)
    requires Unicode(d) && IsoZ(d, p) && Plain(p) && OnCalendar(MomentOf(d, p))
    ensures var s := p + ['\n'];
            IsoZ(d, s) && StrLess(p, s) && MomentOf(d, s) == MomentOf(d, p) && !SortsByTime(d, s)
  {
    var s := p + ['\n'];
    forall i: nat | i < 20 ensures ShapeAt(d, s, i) {
      assert ShapeAt(d, p, i) && s[i] == p[i];
    }
    assert s[0..4] == p[0..4] && s[5..7] == p[5..7] && s[8..10] == p[8..10];
    assert s[11..13] == p[11..13] && s[14..16] == p[14..16] && s[17..19] == p[17..19];
    SmallerEverywhere(p, s);
  }

  lemma NewlineExample(d: Digits)
    requires Unicode(d)
    ensures IsoZ(d, "2026-08-09T00:00:00Z" + ['\n']) && !SortsByTime(d, "2026-08-09T00:00:00Z" + ['\n'])
  {
    OnNinthOfAugust(d);
    ExampleIsPlain();
    ExampleIsStamp(d);
    NewlineSortsLater(d, "2026-08-09T00:00:00Z");
  }

  lemma ExampleIsPlain()
    ensures Plain("2026-08-09T00:00:00Z")
  {
    var p := "2026-08-09T00:00:00Z";
    forall i: nat | i < 20 && SHAPE[i] == 'd' ensures '0' <= p[i] <= '9' {}
  }

  lemma ExampleIsStamp(d: Digits)
    requires Unicode(d)
    ensures IsoZ(d, "2026-08-09T00:00:00Z")
  {
    var p := "2026-08-09T00:00:00Z";
    forall i | i in {0, 1, 2, 3, 5, 6, 8, 9, 11, 12, 14, 15, 17, 18} ensures d(p[i]).Some? {
      assert '0' <= p[i] <= '9';
    }
    StampMeaning(d, p);
  }

  lemma OnNinthOfAugust(d: Digits)
    requires Unicode(d)
    ensures var p := "2026-08-09T00:00:00Z"; OnCalendar(MomentOf(d, p))
  {
    var p := "2026-08-09T00:00:00Z";
    assert p[0..4] == "2026" && p[5..7] == "08" && p[8..10] == "09";
    assert p[11..13] == "00" && p[14..16] == "00" && p[17..19] == "00";
    TwoDigits(d, "08");
    TwoDigits(d, "09");
    TwoDigits(d, "00");
    assert "2026"[..3] == "202" && "202"[..2] == "20";
    TwoDigits(d, "20");
    assert Number(d, "202") == 202;
  }

  lemma TwoDigits(d: Digits, s: string)
    requires |s| == 2
    ensures Number(d, s) == 10 * Value(d, s[0]) + Value(d, s[1])
  {
    assert s[..1] == [s[0]] && s[..1][..0] == [];
    assert Number(d, s[..1]) == Value(d, s[0]);
  }

  // ---- strptime ----------------------------------------------------------------------------------------

  /** Where `strptime` takes a digit of another script: in the year, and after a first digit that allows any second. */
  predicate AnyScript(s: string, i: nat)
    requires |s| == 20 && i < 20
  {
    i < 4 || (i == 9 && s[8] in "12") || (i == 12 && s[11] in "01") || i == 15 || (i == 18 && s[17] != '6')
  }

  /** `strptime(s, "%Y-%m-%dT%H:%M:%SZ")` on a string of the ISO_Z shape; None is its ValueError. */
  function Strptime(d: Digits, s: string): (r: Option<Moment>)
    requires IsoZ(d, s)
    ensures r.Some? ==> |s| == 20 && OnCalendar(r.value) && r.value == MomentOf(d, s)
  {
    if |s| == 20 && (forall i: nat | i < 20 && SHAPE[i] == 'd' :: '0' <= s[i] <= '9' || AnyScript(s, i))
       && OnCalendar(MomentOf(d, s))
    then Some(MomentOf(d, s)) else None
  }

  lemma PlainParses(d: Digits, s: string)
    requires IsoZ(d, s) && Plain(s)
    ensures Strptime(d, s) == if OnCalendar(MomentOf(d, s)) then Some(MomentOf(d, s)) else None
  {
  }
}
