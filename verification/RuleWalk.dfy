/** Walking a table of rules by year and position: `find_next_rule` and `find_previous_rule` of tz.cpp.
    On a table in blocks each call is one step to the adjacent pair of a rule and a year. Whether
    that is also the next pair in time depends on the rules. */
module RuleWalk {
  import opened Options
  import opened Rules
  import opened RuleSplit
  import opened RuleOrder
  import opened MonthDay
  import opened Calendar
  import opened Weekdays

  /** A rule of the table, by position, in one of its years. */
  datatype Spot = Spot(r: nat, y: int)

  /** The rules `[first, last)`, all of one name and in blocks. */
  predicate Stretch(rules: seq<Rule>, first: nat, last: nat) {
    && first < last <= |rules|
    && Blocks(rules[first..last])
    && (forall p :: first <= p < last ==> rules[p].name == rules[first].name)
  }

  /** ... and no neighbour has that name. */
  predicate WholeName(rules: seq<Rule>, first: nat, last: nat) {
    && Stretch(rules, first, last)
    && (first == 0 || rules[first - 1].name != rules[first].name)
    && (last == |rules| || rules[last].name != rules[first].name)
  }

  predicate On(rules: seq<Rule>, first: nat, last: nat, a: Spot)
    requires last <= |rules|
  {
    first <= a.r < last && InYears(rules[a.r], a.y)
  }

  /** Earlier year, or earlier in the table in the same year. */
  predicate Precedes(a: Spot, b: Spot) {
    a.y < b.y || (a.y == b.y && a.r < b.r)
  }

  /** `n` is the spot right after `a`. */
  ghost predicate IsNext(rules: seq<Rule>, first: nat, last: nat, a: Spot, n: Option<Spot>)
    requires last <= |rules|
  {
    match n
    case None => forall b :: On(rules, first, last, b) ==> !Precedes(a, b)
    case Some(n) =>
      && On(rules, first, last, n) && Precedes(a, n)
      && forall b :: On(rules, first, last, b) && Precedes(a, b) ==> b == n || Precedes(n, b)
  }

  /** `p` is the spot right before `a`. */
  ghost predicate IsPrevious(rules: seq<Rule>, first: nat, last: nat, a: Spot, p: Option<Spot>)
    requires last <= |rules|
  {
    match p
    case None => forall b :: On(rules, first, last, b) ==> !Precedes(b, a)
    case Some(p) =>
      && On(rules, first, last, p) && Precedes(p, a)
      && forall b :: On(rules, first, last, b) && Precedes(b, a) ==> b == p || Precedes(b, p)
  }

  /** In blocks, of two rules the later one has the same years or only later ones. */
  lemma InOrder(rules: seq<Rule>, first: nat, last: nat, p: nat, q: nat)
    requires Stretch(rules, first, last) && first <= p <= q < last
    ensures rules[p].start <= rules[p].end
    ensures SameRange(rules[p], rules[q]) || rules[p].end < rules[q].start
  {
    var s := rules[first..last];
    assert s[p - first] in s && s[q - first] in s;
    assert Apart(s[p - first], s[q - first]);
    assert p < q ==> s[p - first].start <= s[q - first].start;
  }

  /** First and last position of the block around `r`. */
  function BlockFirst(rules: seq<Rule>, first: nat, r: nat): nat
    requires first <= r < |rules|
    decreases r
  {
    if r > first && rules[r].start == rules[r - 1].start then BlockFirst(rules, first, r - 1) else r
  }

  function BlockLast(rules: seq<Rule>, last: nat, r: nat): nat
    requires r < last <= |rules|
    decreases last - r
  {
    if r + 1 < last && rules[r].start == rules[r + 1].start then BlockLast(rules, last, r + 1) else r
  }

  lemma {:induction false} BlockFirstIs(rules: seq<Rule>, first: nat, last: nat, r: nat)
    requires Stretch(rules, first, last) && first <= r < last
    ensures var f := BlockFirst(rules, first, r);
      && first <= f <= r && SameRange(rules[f], rules[r])
      && forall p :: first <= p < f ==> rules[p].end < rules[r].start
    decreases r
  {
    hide Blocks;
    if r > first && rules[r].start == rules[r - 1].start {
      BlockFirstIs(rules, first, last, r - 1);
      InOrder(rules, first, last, r - 1, r);
    } else {
      forall p | first <= p < r
        ensures rules[p].end < rules[r].start
      {
        InOrder(rules, first, last, p, r - 1);
        InOrder(rules, first, last, r - 1, r);
      }
    }
  }

  lemma {:induction false} BlockLastIs(rules: seq<Rule>, first: nat, last: nat, r: nat)
    requires Stretch(rules, first, last) && first <= r < last
    ensures var l := BlockLast(rules, last, r);
      && r <= l < last && SameRange(rules[l], rules[r])
      && forall p :: l < p < last ==> rules[r].end < rules[p].start
    decreases last - r
  {
    hide Blocks;
    if r + 1 < last && rules[r].start == rules[r + 1].start {
      BlockLastIs(rules, first, last, r + 1);
      InOrder(rules, first, last, r, r + 1);
    } else {
      forall p | r < p < last
        ensures rules[r].end < rules[p].start
      {
        InOrder(rules, first, last, r, r + 1);
        InOrder(rules, first, last, r + 1, p);
      }
    }
  }

  /** `find_next_rule`, as a function. */
  function Next(rules: seq<Rule>, first: nat, last: nat, a: Spot): Option<Spot>
    requires first <= a.r < last <= |rules|
  {
    var r, y := a.r, a.y;
    if y == rules[r].end then
      if r == last - 1 then None
      else if y == rules[r + 1].end then Some(Spot(r + 1, y))
      else Some(Spot(r + 1, rules[r + 1].start))
    else if r == last - 1 || rules[r].end < rules[r + 1].end then Some(Spot(BlockFirst(rules, first, r), y + 1))
    else Some(Spot(r + 1, y))
  }

  /** `find_previous_rule`, as a function; the call on the very first spot terminates the program. */
  function Previous(rules: seq<Rule>, first: nat, last: nat, a: Spot): Option<Spot>
    requires first <= a.r < last <= |rules|
  {
    var r, y := a.r, a.y;
    if y == rules[r].start then
      if r == first then None
      else if y == rules[r - 1].start then Some(Spot(r - 1, y))
      else Some(Spot(r - 1, rules[r - 1].end))
    else if r == first || rules[r - 1].start < rules[r].start then Some(Spot(BlockLast(rules, last, r), y - 1))
    else Some(Spot(r - 1, y))
  }

  /** In a table in blocks, `Next` is the next pair of rule and year. */
  lemma NextIsNext(rules: seq<Rule>, first: nat, last: nat, a: Spot)
    requires Stretch(rules, first, last) && On(rules, first, last, a)
    ensures IsNext(rules, first, last, a, Next(rules, first, last, a))
  {
    hide Blocks;
    var r := a.r;
    BlockFirstIs(rules, first, last, r);
    if r + 1 < last { InOrder(rules, first, last, r, r + 1); InOrder(rules, first, last, r + 1, r + 1); }
    forall b | On(rules, first, last, b)
      ensures var n := Next(rules, first, last, a);
        Precedes(a, b) ==> n.Some? && (b == n.value || Precedes(n.value, b))
    {
      if b.r <= r {
        InOrder(rules, first, last, b.r, r);
      } else {
        InOrder(rules, first, last, r, b.r);
        InOrder(rules, first, last, r + 1, b.r);
      }
    }
  }

  /** In a table in blocks, `Previous` is the previous pair of rule and year. */
  lemma PreviousIsPrevious(rules: seq<Rule>, first: nat, last: nat, a: Spot)
    requires Stretch(rules, first, last) && On(rules, first, last, a)
    ensures IsPrevious(rules, first, last, a, Previous(rules, first, last, a))
  {
    hide Blocks;
    var r := a.r;
    BlockLastIs(rules, first, last, r);
    if r > first { InOrder(rules, first, last, r - 1, r); InOrder(rules, first, last, r - 1, r - 1); }
    forall b | On(rules, first, last, b)
      ensures var p := Previous(rules, first, last, a);
        Precedes(b, a) ==> p.Some? && (b == p.value || Precedes(b, p.value))
    {
      if b.r >= r {
        InOrder(rules, first, last, r, b.r);
      } else {
        InOrder(rules, first, last, b.r, r);
        InOrder(rules, first, last, b.r, r - 1);
      }
    }
  }

  /** The two directions invert each other. */
  lemma PreviousInvertsNext(rules: seq<Rule>, first: nat, last: nat, a: Spot)
    requires Stretch(rules, first, last) && On(rules, first, last, a)
    ensures var n := Next(rules, first, last, a);
      n.Some? ==> first <= n.value.r < last && Previous(rules, first, last, n.value) == Some(a)
    ensures var p := Previous(rules, first, last, a);
      p.Some? ==> first <= p.value.r < last && Next(rules, first, last, p.value) == Some(a)
  {
    hide Blocks;
    var n, p := Next(rules, first, last, a), Previous(rules, first, last, a);
    NextIsNext(rules, first, last, a);
    PreviousIsPrevious(rules, first, last, a);
    if n.Some? { PreviousIsPrevious(rules, first, last, n.value); }
    if p.Some? { NextIsNext(rules, first, last, p.value); }
  }

  // ----- The whole walk

  /** The spots reached from `a` by repeated `Next`. */
  ghost function Walk(rules: seq<Rule>, first: nat, last: nat, a: Spot): seq<Spot>
    requires Stretch(rules, first, last) && On(rules, first, last, a)
    decreases rules[last - 1].end - a.y, last - a.r
  {
    NextIsNext(rules, first, last, a);
    match Next(rules, first, last, a)
    case None => [a]
    case Some(n) =>
      InOrder(rules, first, last, n.r, last - 1);
      InOrder(rules, first, last, last - 1, last - 1);
      [a] + Walk(rules, first, last, n)
  }

  ghost predicate Ascending(w: seq<Spot>) {
    forall i, j :: 0 <= i < j < |w| ==> Precedes(w[i], w[j])
  }

  /** All spots from `a` on, each once and in order. */
  ghost predicate Visits(rules: seq<Rule>, first: nat, last: nat, a: Spot, w: seq<Spot>)
    requires last <= |rules|
  {
    Ascending(w) && forall b :: b in w <==> On(rules, first, last, b) && (b == a || Precedes(a, b))
  }

  lemma VisitsOne(rules: seq<Rule>, first: nat, last: nat, a: Spot)
    requires last <= |rules| && On(rules, first, last, a) && IsNext(rules, first, last, a, None)
    ensures Visits(rules, first, last, a, [a])
  {
  }

  lemma VisitsMore(rules: seq<Rule>, first: nat, last: nat, a: Spot, n: Spot, w: seq<Spot>)
    requires last <= |rules| && On(rules, first, last, a) && IsNext(rules, first, last, a, Some(n))
    requires Visits(rules, first, last, n, w)
    ensures Visits(rules, first, last, a, [a] + w)
  {
    hide On;
    var v := [a] + w;
    forall b
      ensures b in v <==> On(rules, first, last, b) && (b == a || Precedes(a, b))
    {
      assert b in v <==> b == a || b in w;
    }
    forall i, j | 0 <= i < j < |v|
      ensures Precedes(v[i], v[j])
    {
      assert v[j] == w[j - 1] && w[j - 1] in w;
    }
  }

  lemma {:induction false} WalkFrom(rules: seq<Rule>, first: nat, last: nat, a: Spot)
    requires Stretch(rules, first, last) && On(rules, first, last, a)
    ensures Visits(rules, first, last, a, Walk(rules, first, last, a))
    decreases rules[last - 1].end - a.y, last - a.r
  {
    hide Blocks, Visits, Next;
    NextIsNext(rules, first, last, a);
    match Next(rules, first, last, a)
    case None => VisitsOne(rules, first, last, a);
    case Some(n) =>
      InOrder(rules, first, last, n.r, last - 1);
      InOrder(rules, first, last, last - 1, last - 1);
      WalkFrom(rules, first, last, n);
      VisitsMore(rules, first, last, a, n, Walk(rules, first, last, n));
  }

  /** Started at the first rule and its first year, the walk visits every rule in every one of its
      years exactly once, ordered by year and then by position. */
  lemma WalkVisitsAll(rules: seq<Rule>, first: nat, last: nat)
    requires Stretch(rules, first, last)
    ensures var a := Spot(first, rules[first].start);
      && On(rules, first, last, a)
      && Ascending(Walk(rules, first, last, a))
      && forall b :: b in Walk(rules, first, last, a) <==> On(rules, first, last, b)
  {
    var a := Spot(first, rules[first].start);
    hide Blocks, Walk;
    InOrder(rules, first, last, first, first);
    WalkFrom(rules, first, last, a);
    forall b | On(rules, first, last, b)
      ensures b == a || Precedes(a, b)
    {
      InOrder(rules, first, last, first, b.r);
    }
  }

  /** Along the walk moments never go back. */
  ghost predicate InTime(rules: seq<Rule>, first: nat, last: nat, w: seq<Spot>)
    requires first < last <= |rules| && ValidDays(rules[first..last])
    requires forall a :: a in w ==> On(rules, first, last, a)
  {
    forall i, j :: 0 <= i < j < |w| ==> MomentAt(rules, first, last, w[i]) <= MomentAt(rules, first, last, w[j])
  }

  function MomentAt(rules: seq<Rule>, first: nat, last: nat, a: Spot): int
    requires first < last <= |rules| && ValidDays(rules[first..last]) && On(rules, first, last, a)
  {
    assert rules[first..last][a.r - first] in rules[first..last];
    Moment(rules[a.r].at, a.y)
  }

  /** The walk is chronological exactly when the table is. */
  lemma WalkInTimeIff(rules: seq<Rule>, first: nat, last: nat)
    requires Stretch(rules, first, last) && ValidDays(rules[first..last])
    ensures var a := Spot(first, rules[first].start);
      && On(rules, first, last, a)
      && (forall b :: b in Walk(rules, first, last, a) ==> On(rules, first, last, b))
      && (InTime(rules, first, last, Walk(rules, first, last, a)) <==> Chronological(rules[first..last]))
  {
    hide Blocks, Walk, Moment, ValidOn;
    var s, a := rules[first..last], Spot(first, rules[first].start);
    WalkVisitsAll(rules, first, last);
    var w := Walk(rules, first, last, a);
    if Chronological(s) {
      forall i, j | 0 <= i < j < |w|
        ensures MomentAt(rules, first, last, w[i]) <= MomentAt(rules, first, last, w[j])
      {
        assert w[i] in w && w[j] in w && Precedes(w[i], w[j]);
        assert s[w[i].r - first] == rules[w[i].r] && s[w[j].r - first] == rules[w[j].r];
      }
    }
    if InTime(rules, first, last, w) {
      WalkTellsOrder(rules, first, last, w);
    }
  }

  lemma PlacesInOrder(w: seq<Spot>, i: nat, j: nat)
    requires Ascending(w) && i < |w| && j < |w| && Precedes(w[i], w[j])
    ensures i < j
  {
  }

  lemma WalkTellsOrder(rules: seq<Rule>, first: nat, last: nat, w: seq<Spot>)
    requires first < last <= |rules| && ValidDays(rules[first..last]) && Ascending(w)
    requires forall b :: b in w <==> On(rules, first, last, b)
    requires InTime(rules, first, last, w)
    ensures Chronological(rules[first..last])
  {
    hide Moment, ValidOn;
    var s := rules[first..last];
    forall p, q, y, z | 0 <= p < |s| && 0 <= q < |s| && InYears(s[p], y) && InYears(s[q], z) && (y < z || (y == z
      && p < q))
      ensures ValidOn(s[p].at.on) && ValidOn(s[q].at.on) && Moment(s[p].at, y) <= Moment(s[q].at, z)
    {
      var a, b := Spot(first + p, y), Spot(first + q, z);
      assert s[p] in s && s[q] in s && s[p] == rules[a.r] && s[q] == rules[b.r];
      assert a in w && b in w && Precedes(a, b);
      var i :| 0 <= i < |w| && w[i] == a;
      var j :| 0 <= j < |w| && w[j] == b;
      PlacesInOrder(w, i, j);
      assert MomentAt(rules, first, last, w[i]) <= MomentAt(rules, first, last, w[j]);
    }
  }

  /** It need not be: "Sunday on or after 1 March" is sorted before "2 March", and in 2018 it is the 4th. */
  lemma NextCanGoBack(s: seq<Rule>, t: seq<Rule>)
    requires s == [Rule("R", 2018, 2018, MonthDayTime(OnOrAfter(3, 1, 0), 0, Utc), 0, ""),
                   Rule("R", 2018, 2018, MonthDayTime(Fixed(3, 2), 0, Utc), 3600, "")]
    requires ValidDays(s) && Canonical(s, t)
    ensures Sorted(s) && Blocks(s) && Stretch(t, 0, 2) && Next(t, 0, 2, Spot(0, 2018)) == Some(Spot(1, 2018))
    ensures ValidOn(t[0].at.on) && ValidOn(t[1].at.on) && Moment(t[0].at, 2018) > Moment(t[1].at, 2018)
  {
    hide ToSysDays, Canonicalize;
    CanonicalIsValid(s, t);
    assert t == [CanonicalRule(s[0]), CanonicalRule(s[1])];
    FirstSundayOfMarch2018();
    assert Canonicalize(Fixed(3, 2), 2018) == Fixed(3, 2) by { CanonicalizeFixed(3, 2, 2018); }
    assert t[0..2] == t;
  }

  lemma CanonicalizeFixed(m: int, d: int, y: int)
    requires ValidOn(Fixed(m, d))
    ensures Canonicalize(Fixed(m, d), y) == Fixed(m, d)
  {
  }

  lemma FirstSundayOfMarch2018()
    ensures Canonicalize(OnOrAfter(3, 1, 0), 2018) == Fixed(3, 4)
    ensures ToSysDays(Fixed(3, 4), 2018) == ToSysDays(Fixed(3, 2), 2018) + 2
  {
    hide FromDays, ToDays, WeekdayDiff, Weekday;
    var first, sunday := ToDays(Date(2018, 3, 1)), ToDays(Date(2018, 3, 4));
    DayShift(2018, 3, 2);
    DayShift(2018, 3, 4);
    assert Weekday(sunday) == 0 by {
      ToDaysValue(Date(2018, 3, 4));
      WeekdayValue(sunday);
      assert MarchYear(18) == 6574 && MarchMonth(0) == 0;
    }
    OnOrAfterIsUnique(3, 1, 0, 2018, sunday);
    FromToDays(Date(2018, 3, 4));
  }

  // ----- The code's loops

  /** `find_next_rule` given the ends of the stretch. */
  method FindNextRuleIn(rules: seq<Rule>, first: nat, last: nat, r0: nat, y: int) returns (n: Option<Spot>)
    requires first <= r0 < last <= |rules|
    ensures n == Next(rules, first, last, Spot(r0, y))
  {
    var r := r0;
    if y == rules[r].end {
      if r == last - 1 { return None; }
      r := r + 1;
      if y == rules[r].end { return Some(Spot(r, y)); }
      return Some(Spot(r, rules[r].start));
    }
    if r == last - 1 || rules[r].end < rules[r + 1].end {
      while r > first && rules[r].start == rules[r - 1].start
        invariant first <= r <= r0 && BlockFirst(rules, first, r) == BlockFirst(rules, first, r0)
      {
        r := r - 1;
      }
      return Some(Spot(r, y + 1));
    }
    return Some(Spot(r + 1, y));
  }

  /** `find_next_rule` that finds the ends of the stretch by the name. */
  method FindNextRule(rules: seq<Rule>, ghost first: nat, ghost last: nat, r0: nat, y: int) returns (n: Option<Spot>)
    requires WholeName(rules, first, last) && first <= r0 < last
    ensures n == Next(rules, first, last, Spot(r0, y))
  {
    hide Blocks;
    var r := r0;
    if y == rules[r].end {
      if r == |rules| - 1 || rules[r].name != rules[r + 1].name { return None; }
      r := r + 1;
      if y == rules[r].end { return Some(Spot(r, y)); }
      return Some(Spot(r, rules[r].start));
    }
    if r == |rules| - 1 || rules[r].name != rules[r + 1].name || rules[r].end < rules[r + 1].end {
      while r > 0 && rules[r].name == rules[r - 1].name && rules[r].start == rules[r - 1].start
        invariant first <= r <= r0 && BlockFirst(rules, first, r) == BlockFirst(rules, first, r0)
      {
        r := r - 1;
      }
      return Some(Spot(r, y + 1));
    }
    return Some(Spot(r + 1, y));
  }

  /** `find_previous_rule`; no result stands for `std::terminate`. */
  method FindPreviousRule(rules: seq<Rule>, ghost first: nat, ghost last: nat, r0: nat, y: int)
    returns (p: Option<Spot>)
    requires WholeName(rules, first, last) && first <= r0 < last
    ensures p == Previous(rules, first, last, Spot(r0, y))
  {
    hide Blocks;
    var r := r0;
    if y == rules[r].start {
      if r == 0 || rules[r].name != rules[r - 1].name { return None; }
      r := r - 1;
      if y == rules[r].start { return Some(Spot(r, y)); }
      return Some(Spot(r, rules[r].end));
    }
    if r == 0 || rules[r].name != rules[r - 1].name || rules[r - 1].start < rules[r].start {
      while r < |rules| - 1 && rules[r].name == rules[r + 1].name && rules[r].start == rules[r + 1].start
        invariant r0 <= r < last && BlockLast(rules, last, r) == BlockLast(rules, last, r0)
      {
        r := r + 1;
      }
      return Some(Spot(r, y - 1));
    }
    return Some(Spot(r - 1, y));
  }
}
