/** `Rule::split_overlaps` on the whole rule table of tz.cpp: name by name. */
module RuleDatabase {
  import opened MonthDay
  import opened Rules
  import opened RuleSplit
  import opened RuleOrder
  import opened RuleTable
  import opened RuleWalk

  /** `operator<` on strings. */
  predicate NameLess(a: string, b: string) {
    if b == [] then false
    else if a == [] then true
    else if a[0] != b[0] then a[0] < b[0]
    else NameLess(a[1..], b[1..])
  }

  /** The first difference decides, and a beginning comes before the whole. */
  lemma {:induction false} NameLessIff(a: string, b: string, k: nat)
    requires k <= |a| && k <= |b| && a[..k] == b[..k] && (k < |a| && k < |b| ==> a[k] != b[k])
    ensures NameLess(a, b) <==> k < |b| && (k == |a| || a[k] < b[k])
    decreases k
  {
    if k > 0 {
      assert a[0] == a[..k][0] == b[0];
      assert a[1..][..k - 1] == a[..k][1..] && b[1..][..k - 1] == b[..k][1..];
      NameLessIff(a[1..], b[1..], k - 1);
    }
  }

  lemma {:induction false} NamesCompare(a: string, b: string)
    requires !NameLess(a, b) && !NameLess(b, a)
    ensures a == b
  {
    if a != [] && b != [] { NamesCompare(a[1..], b[1..]); }
  }

  /** The table is sorted by `operator<`, which compares names first. */
  predicate SortedTable(s: seq<Rule>) {
    forall i, j :: 0 <= i < j < |s| ==>
      !NameLess(s[j].name, s[i].name) && (s[i].name == s[j].name ==> !Less(s[j], s[i]))
  }

  predicate Named(r: Rule, n: string) {
    r.name == n
  }

  /** The rules of one name, in table order. */
  function OfName(s: seq<Rule>, n: string): seq<Rule> {
    if s == [] then [] else (if Named(s[0], n) then [s[0]] else []) + OfName(s[1..], n)
  }

  lemma {:induction false} OfNameConcat(s: seq<Rule>, t: seq<Rule>, n: string)
    ensures OfName(s + t, n) == OfName(s, n) + OfName(t, n)
  {
    hide Named;
    if s == [] {
      assert s + t == t;
    } else {
      assert (s + t)[1..] == s[1..] + t && (s + t)[0] == s[0];
      OfNameConcat(s[1..], t, n);
      Assoc(if Named(s[0], n) then [s[0]] else [], OfName(s[1..], n), OfName(t, n));
    }
  }

  lemma {:induction false} OfNameAll(s: seq<Rule>, n: string)
    requires forall r :: r in s ==> r.name == n
    ensures OfName(s, n) == s
  {
    if s != [] {
      assert s[0] in s;
      OfNameAll(s[1..], n);
    }
  }

  lemma {:induction false} OfNameNone(s: seq<Rule>, n: string)
    requires forall r :: r in s ==> r.name != n
    ensures OfName(s, n) == []
  {
    if s != [] {
      assert s[0] in s;
      OfNameNone(s[1..], n);
    }
  }

  /** What the split does for one name: blocks, the same rule-years, and the same effects exactly when
      the days of isolated years stay in these years, and time order exactly when the keys tell it. */
  ghost predicate SplitWell(s: seq<Rule>, t: seq<Rule>) {
    && Blocks(t) && ValidDays(t) && Years(t) == Years(s) && ValidDays(s)
    && (DaysStay(s) <==> forall y :: Effects(t, y) == Effects(s, y))
    && (KeysTell(s) <==> Untied(s) && Chronological(t))
  }

  /** ... for every name. */
  ghost predicate AllSplitWell(s: seq<Rule>, t: seq<Rule>) {
    forall n :: SplitWell(OfName(s, n), OfName(t, n))
  }

  ghost predicate NamesApart(s: seq<Rule>, t: seq<Rule>) {
    forall x, y :: x in s && y in t ==> x.name != y.name
  }

  /** Rules of one name stand together. */
  predicate Grouped(s: seq<Rule>) {
    forall i, j, k :: 0 <= i < j < k < |s| && s[i].name == s[k].name ==> s[j].name == s[i].name
  }

  lemma NothingSplitsWell()
    ensures AllSplitWell([], [])
  {
  }

  /** Adding a name that has not occurred yet. */
  lemma AddName(s: seq<Rule>, t: seq<Rule>, g: seq<Rule>, h: seq<Rule>, name: string)
    requires AllSplitWell(s, t) && SplitWell(g, h)
    requires (forall r :: r in g ==> r.name == name) && (forall r :: r in h ==> r.name == name)
    requires (forall r :: r in s ==> r.name != name) && (forall r :: r in t ==> r.name != name)
    ensures AllSplitWell(s + g, t + h)
  {
    hide SplitWell, OfName;
    forall n
      ensures SplitWell(OfName(s + g, n), OfName(t + h, n))
    {
      OfNameConcat(s, g, n);
      OfNameConcat(t, h, n);
      if n == name {
        OfNameNone(s, n);
        OfNameNone(t, n);
        OfNameAll(g, n);
        OfNameAll(h, n);
        assert [] + g == g && [] + h == h;
      } else {
        OfNameNone(g, n);
        OfNameNone(h, n);
        assert OfName(s, n) + [] == OfName(s, n) && OfName(t, n) + [] == OfName(t, n);
      }
    }
  }

  lemma GroupedAdd(t: seq<Rule>, h: seq<Rule>, name: string)
    requires Grouped(t) && (forall r :: r in h ==> r.name == name) && (forall r :: r in t ==> r.name != name)
    ensures Grouped(t + h)
  {
    var u := t + h;
    forall i, j, k | 0 <= i < j < k < |u| && u[i].name == u[k].name
      ensures u[j].name == u[i].name
    {
      assert i < |t| ==> u[i] in t;
      assert k < |t| ==> u[k] in t;
      assert i >= |t| ==> u[i] in h;
      assert j >= |t| ==> u[j] in h;
      assert k >= |t| ==> u[k] in h;
    }
  }

  /** `std::upper_bound` by name: where the rules named like rule `i` end. */
  method NameEnd(rules: seq<Rule>, i: nat) returns (e: nat)
    requires i < |rules| && SortedTable(rules[i..])
    ensures i < e <= |rules|
    ensures forall p :: i <= p < e ==> rules[p].name == rules[i].name
    ensures forall p :: e <= p < |rules| ==> rules[p].name != rules[i].name
  {
    hide NameLess;
    ghost var s := rules[i..];
    assert forall p :: i <= p < |rules| ==> s[p - i] == rules[p];
    e := i + 1;
    while e < |rules| && !NameLess(rules[i].name, rules[e].name)
      invariant i < e <= |rules| && forall p :: i <= p < e ==> rules[p].name == rules[i].name
    {
      assert !NameLess(s[e - i].name, s[0].name);
      NamesCompare(rules[i].name, rules[e].name);
      e := e + 1;
    }
    if e < |rules| {
      forall p | e <= p < |rules|
        ensures rules[p].name != rules[i].name
      {
        assert p > e ==> !NameLess(s[p - i].name, s[e - i].name);
      }
    }
  }

  // ----- Trimming to the years the library handles

  const MIN_YEAR := -32767
  const MAX_YEAR := 32767

  /** Years as `date::year` holds them. */
  predicate YearsOk(s: seq<Rule>) {
    forall r :: r in s ==> MIN_YEAR <= r.start && r.end <= MAX_YEAR
  }

  /** `std::lower_bound` for a year: the first rule that does not end before it. */
  method FirstNotBefore(rules: seq<Rule>, i: nat, e: nat, y: int) returns (t: nat)
    requires i <= e <= |rules| && Blocks(rules[i..e])
    ensures i <= t <= e
    ensures forall p :: i <= p < t ==> rules[p].end < y
    ensures forall p :: t <= p < e ==> rules[p].end >= y
  {
    t := i;
    while t < e && rules[t].end < y
      invariant i <= t <= e && forall p :: i <= p < t ==> rules[p].end < y
    {
      t := t + 1;
    }
    forall p | t <= p < e
      ensures rules[p].end >= y
    {
      BlocksAscend(rules, i, e, t, p);
    }
  }

  /** `std::upper_bound` for a year: the first rule that starts after it. */
  method FirstAfter(rules: seq<Rule>, i: nat, e: nat, y: int) returns (t: nat)
    requires i <= e <= |rules| && Blocks(rules[i..e])
    ensures i <= t <= e
    ensures forall p :: i <= p < t ==> rules[p].start <= y
    ensures forall p :: t <= p < e ==> rules[p].start > y
  {
    t := i;
    while t < e && rules[t].start <= y
      invariant i <= t <= e && forall p :: i <= p < t ==> rules[p].start <= y
    {
      t := t + 1;
    }
    forall p | t <= p < e
      ensures rules[p].start > y
    {
      BlocksAscend(rules, i, e, t, p);
    }
  }

  lemma BlocksAscend(rules: seq<Rule>, i: nat, e: nat, p: nat, q: nat)
    requires i <= p <= q < e <= |rules| && Blocks(rules[i..e])
    ensures rules[p].start <= rules[q].start && rules[p].end <= rules[q].end && rules[p].start <= rules[p].end
  {
    var s := rules[i..e];
    assert s[p - i] == rules[p] && s[q - i] == rules[q] && s[p - i] in s && s[q - i] in s;
    assert Apart(s[p - i], s[q - i]);
  }

  lemma BlocksTail(s: seq<Rule>, a: nat)
    requires Blocks(s) && a <= |s|
    ensures Blocks(s[a..])
  {
    var t := s[a..];
    assert forall p :: 0 <= p < |t| ==> t[p] == s[a + p];
    assert forall r :: r in t ==> r in s;
  }

  /** The first `a` rules end before the first year, no more than one of the others does, and the first
      of the others has begun by then. */
  predicate FrontTo(s: seq<Rule>, a: nat) {
    && a <= |s| && (a == |s| ==> s == [])
    && (forall p :: 0 <= p < a ==> s[p].end < MIN_YEAR)
    && (forall p :: a < p < |s| ==> s[p].end >= MIN_YEAR)
    && (0 < a < |s| ==> s[a].start < MIN_YEAR)
  }

  /** The first `b` rules are all that do not start after the last year. */
  predicate BackTo(s: seq<Rule>, b: nat) {
    && b <= |s|
    && (forall p :: 0 <= p < b ==> s[p].start <= MAX_YEAR)
    && (forall p :: b <= p < |s| ==> s[p].start > MAX_YEAR)
  }

  lemma NothingTrimmed(s: seq<Rule>, a: nat, b: nat)
    requires YearsOk(s) && Nonempty(s) && FrontTo(s, a) && BackTo(s[a..], b)
    ensures a == 0 && b == |s| && s[a..][..b] == s
  {
    assert forall p :: 0 <= p < |s| ==> s[p] in s && s[p].start <= MAX_YEAR;
    assert a == 0 && s[a..] == s;
    assert BackTo(s, b);
    assert |s| > 0 ==> s[|s| - 1].start <= MAX_YEAR;
  }

  /** The first erase of the loop of `Rule::split_overlaps`. */
  method TrimFront(table: Table, i: nat, e0: nat) returns (e: nat, ghost a: nat)
    requires i <= e0 <= |table.rules| && Blocks(table.rules[i..e0])
    modifies table
    ensures a <= e0 - i && FrontTo(old(table.rules[i..e0]), a)
    ensures i <= e <= |table.rules| && table.rules[i..e] == old(table.rules[i..e0])[a..]
    ensures table.rules[..i] == old(table.rules[..i]) && table.rules[e..] == old(table.rules[e0..])
  {
    hide Blocks, FrontTo;
    ghost var all := table.rules;
    e, a := e0, 0;
    var t := FirstNotBefore(table.rules, i, e, MIN_YEAR);
    ghost var before := t - i;
    if t > i + 1 {
      if t == e || table.rules[t].start >= MIN_YEAR { t := t - 1; }
      a := t - i;
      FrontFound(all, i, e0, before, a);
      Erase(table, i, t);
      e := e - (t - i);
      Erased(all, i, t, e0);
    } else {
      FrontFound(all, i, e0, before, a);
    }
  }

  lemma FrontFound(rules: seq<Rule>, i: nat, e: nat, before: nat, a: nat)
    requires i + before <= e <= |rules| && Blocks(rules[i..e])
    requires forall p :: i <= p < i + before ==> rules[p].end < MIN_YEAR
    requires forall p :: i + before <= p < e ==> rules[p].end >= MIN_YEAR
    requires a == if before <= 1 then 0 else if before == e - i || rules[i + before].start >= MIN_YEAR
      then before - 1 else before
    ensures a <= e - i && FrontTo(rules[i..e], a)
  {
    hide Blocks;
    var s := rules[i..e];
    assert forall p :: 0 <= p < |s| ==> s[p] == rules[i + p];
    if before > 1 { BlocksAscend(rules, i, e, i + before - 1, i + before - 1); }
  }

  /** The second one. */
  method TrimBack(table: Table, i: nat, e0: nat) returns (e: nat, ghost b: nat)
    requires i <= e0 <= |table.rules| && Blocks(table.rules[i..e0])
    modifies table
    ensures BackTo(old(table.rules[i..e0]), b)
    ensures i <= e <= |table.rules| && table.rules[i..e] == old(table.rules[i..e0])[..b]
    ensures table.rules[..i] == old(table.rules[..i]) && table.rules[e..] == old(table.rules[e0..])
  {
    hide Blocks;
    ghost var all := table.rules;
    ghost var s := all[i..e0];
    assert forall p :: i <= p < e0 ==> s[p - i] == all[p];
    e := FirstAfter(table.rules, i, e0, MAX_YEAR);
    b := e - i;
    if e != e0 {
      Erase(table, e, e0);
    }
    assert table.rules == all[..e] + all[e0..];
    assert s[..b] == all[..e][i..];
  }

  /** `std::vector::erase` of `[p, q)`. */
  method Erase(table: Table, p: nat, q: nat)
    requires p <= q <= |table.rules|
    modifies table
    ensures table.rules == old(table.rules)[..p] + old(table.rules)[q..]
  {
    table.rules := table.rules[..p] + table.rules[q..];
  }

  lemma Erased(all: seq<Rule>, i: nat, q: nat, e: nat)
    requires i <= q <= e <= |all|
    ensures var t := all[..i] + all[q..];
      t[..i] == all[..i] && t[i..e - (q - i)] == all[i..e][q - i..] && t[e - (q - i)..] == all[e..]
  {
    var t := all[..i] + all[q..];
    assert t[i..e - (q - i)] == all[q..e];
    Subslice(all, i, e, q - i, e - i);
    assert all[i..e][q - i..] == all[i..e][q - i..e - i];
  }

  // ----- Name by name

  /** The first `k` rules of `rest` are all there are of their name, and `h` is what they become. */
  ghost predicate NextName(rest: seq<Rule>, k: nat, h: seq<Rule>) {
    && 0 < k <= |rest|
    && (forall r :: r in rest[..k] ==> r.name == rest[0].name)
    && (forall r :: r in rest[k..] ==> r.name != rest[0].name)
    && (forall r :: r in h ==> r.name == rest[0].name)
    && SplitWell(rest[..k], h)
  }

  /** One pass of the loop of `Rule::split_overlaps`: the rules of the next name. */
  method SplitName(table: Table, i: nat) returns (e: nat, ghost e0: nat)
    requires i < |table.rules|
    requires SortedTable(table.rules[i..]) && Nonempty(table.rules[i..]) && ValidDays(table.rules[i..])
    requires YearsOk(table.rules[i..])
    modifies table
    ensures i < e0 <= |old(table.rules)| && i <= e <= |table.rules|
    ensures table.rules[..i] == old(table.rules[..i]) && table.rules[e..] == old(table.rules)[e0..]
    ensures NextName(old(table.rules[i..]), e0 - i, table.rules[i..e])
  {
    hide NameLess, SplitWell, Nonempty, ValidDays, Blocks, SortedTable, Slice, Years, Effects, DaysStay;
    hide KeysTell, Untied, Chronological, YearsOk, Within, FrontTo, BackTo;
    var end := NameEnd(table.rules, i);
    e0 := end;
    ghost var tail, g := table.rules[i..], table.rules[i..end];
    assert g == tail[..end - i] && tail[end - i..] == table.rules[end..];
    GroupIsSlice(tail, end - i, table.rules[i].name);
    e := table.SplitOverlaps(i, end);
    ghost var h := table.rules[i..e];
    assert YearsOk(g) by { YearsOkPart(tail, end - i); }
    SplitYearsOk(g, h);
    WellSplit(g, h);
    ghost var a, b;
    e, a := TrimFront(table, i, e);
    assert Blocks(table.rules[i..e]) by { BlocksTail(h, a); }
    e, b := TrimBack(table, i, e);
    NothingTrimmed(h, a, b);
  }

  lemma YearsOkPart(s: seq<Rule>, k: nat)
    requires YearsOk(s) && k <= |s|
    ensures YearsOk(s[..k]) && YearsOk(s[k..])
  {
    assert forall r :: r in s[..k] || r in s[k..] ==> r in s;
  }

  lemma SplitYearsOk(g: seq<Rule>, h: seq<Rule>)
    requires YearsOk(g) && Within(g, h) && Blocks(h)
    ensures YearsOk(h) && Nonempty(h)
  {
  }

  /** The table so far, `t`, and the rules it came from, `s`, with `rest` still to come. */
  ghost predicate Progress(s: seq<Rule>, t: seq<Rule>, rest: seq<Rule>) {
    && AllSplitWell(s, t) && Grouped(t) && NamesApart(s, rest) && NamesApart(t, rest)
    && SortedTable(rest) && Nonempty(rest) && ValidDays(rest) && YearsOk(rest)
  }

  lemma ProgressBegins(rest: seq<Rule>)
    requires SortedTable(rest) && Nonempty(rest) && ValidDays(rest) && YearsOk(rest)
    ensures Progress([], [], rest)
  {
    hide SortedTable, Nonempty, ValidDays, YearsOk;
    NothingSplitsWell();
    GroupedNone();
  }

  lemma ProgressStep(s: seq<Rule>, t: seq<Rule>, rest: seq<Rule>, k: nat, h: seq<Rule>)
    requires 0 < k <= |rest| && Progress(s, t, rest) && NextName(rest, k, h)
    ensures Progress(s + rest[..k], t + h, rest[k..])
  {
    hide NameLess, SplitWell, AllSplitWell, ValidOn, Grouped, SortedTable, Nonempty, ValidDays, YearsOk;
    var g, name := rest[..k], rest[0].name;
    assert rest[0] in rest;
    assert forall r :: r in rest[k..] ==> r in rest;
    AddName(s, t, g, h, name);
    GroupedAdd(t, h, name);
    TailSorted(rest, k);
    YearsOkPart(rest, k);
  }

  /** `Rule::split_overlaps`: every name's rules end up in blocks, and say what they said. */
  method SplitTable(table: Table)
    requires SortedTable(table.rules) && Nonempty(table.rules) && ValidDays(table.rules) && YearsOk(table.rules)
    modifies table
    ensures AllSplitWell(old(table.rules), table.rules) && Grouped(table.rules)
  {
    hide AllSplitWell, Grouped, SortedTable, Nonempty, ValidDays, YearsOk, Progress, NextName;
    var i := 0;
    ghost var s, rest := [], table.rules;
    ProgressBegins(rest);
    assert table.rules[..0] == [] && table.rules[0..] == rest && s + rest == old(table.rules);
    while i < |table.rules|
      invariant i <= |table.rules| && table.rules[i..] == rest && s + rest == old(table.rules)
      invariant Progress(s, table.rules[..i], rest)
      decreases |rest|
    {
      ghost var before := table.rules;
      ghost var t := before[..i];
      assert before[i] == rest[0];
      ProgressSoFar(s, t, rest);
      var e, e0 := SplitName(table, i);
      ghost var k := e0 - i;
      ghost var h := table.rules[i..e];
      ProgressStep(s, t, rest, k, h);
      Advance(before, table.rules, i, e, e0);
      MoveOver(s, rest, k);
      s, rest := s + rest[..k], rest[k..];
      i := e;
    }
    ProgressSoFar(s, table.rules[..i], rest);
    assert s == old(table.rules) && table.rules[..i] == table.rules;
  }

  lemma Advance(before: seq<Rule>, after: seq<Rule>, i: nat, e: nat, e0: nat)
    requires i <= e0 <= |before| && i <= e <= |after| && after[..i] == before[..i] && after[e..] == before[e0..]
    ensures before[i..][e0 - i..] == after[e..] && after[..e] == before[..i] + after[i..e]
  {
    assert before[i..][e0 - i..] == before[e0..];
    assert after[..e] == after[..i] + after[i..e];
  }

  lemma MoveOver(s: seq<Rule>, rest: seq<Rule>, k: nat)
    requires k <= |rest|
    ensures s + rest[..k] + rest[k..] == s + rest
  {
    assert rest[..k] + rest[k..] == rest;
  }

  lemma ProgressSoFar(s: seq<Rule>, t: seq<Rule>, rest: seq<Rule>)
    requires Progress(s, t, rest)
    ensures AllSplitWell(s, t) && Grouped(t) && SortedTable(rest) && Nonempty(rest) && ValidDays(rest) && YearsOk(rest)
  {
    hide AllSplitWell, Grouped, SortedTable, Nonempty, ValidDays, YearsOk;
  }

  lemma GroupedNone()
    ensures Grouped([])
  {
  }

  lemma TailSorted(s: seq<Rule>, j: nat)
    requires SortedTable(s) && Nonempty(s) && ValidDays(s) && j <= |s|
    ensures SortedTable(s[j..]) && Nonempty(s[j..]) && ValidDays(s[j..])
  {
    hide NameLess, Less, ValidOn;
    var t := s[j..];
    assert forall p :: 0 <= p < |t| ==> t[p] == s[j + p];
  }

  lemma GroupIsSlice(s: seq<Rule>, k: nat, name: string)
    requires SortedTable(s) && Nonempty(s) && ValidDays(s) && k <= |s|
    requires forall p :: 0 <= p < k ==> s[p].name == name
    ensures Slice(s[..k])
  {
    hide NameLess, Less, ValidOn;
    var g := s[..k];
    assert forall p :: 0 <= p < |g| ==> g[p] == s[p] && g[p] in s;
  }

  lemma WellSplit(g: seq<Rule>, h: seq<Rule>)
    requires Slice(g) && Blocks(h) && ValidDays(h) && Years(h) == Years(g)
    requires DaysStay(g) <==> forall y :: Effects(h, y) == Effects(g, y)
    requires KeysTell(g) <==> Untied(g) && Chronological(h)
    ensures SplitWell(g, h)
  {
    hide Blocks, Years, ValidOn, ToSysDays, StaysInYear, Lone;
    assert DaysStay(g) ==> forall y :: Effects(h, y) == Effects(g, y);
    assert (forall y :: Effects(h, y) == Effects(g, y)) ==> DaysStay(g);
  }

  /** In the split table the rules of one name are one stretch in blocks, ready to be walked. */
  lemma RunIsStretch(s: seq<Rule>, t: seq<Rule>, first: nat, last: nat)
    requires AllSplitWell(s, t) && Grouped(t) && first < last <= |t|
    requires forall p :: first <= p < last ==> t[p].name == t[first].name
    requires first == 0 || t[first - 1].name != t[first].name
    requires last == |t| || t[last].name != t[first].name
    ensures WholeName(t, first, last)
  {
    hide Blocks, ValidDays, Years, Effects, OfName, Grouped;
    RunIsOfName(t, first, last);
    assert SplitWell(OfName(s, t[first].name), OfName(t, t[first].name));
  }

  /** Walking the rules of a name in the split table goes forward in time, and tied rules share their
      moments, exactly when months and days as written told the order of the moments before the split. */
  lemma SplitWalkInTimeIff(s: seq<Rule>, t: seq<Rule>, first: nat, last: nat)
    requires AllSplitWell(s, t) && Grouped(t) && first < last <= |t|
    requires forall p :: first <= p < last ==> t[p].name == t[first].name
    requires first == 0 || t[first - 1].name != t[first].name
    requires last == |t| || t[last].name != t[first].name
    ensures var before, a := OfName(s, t[first].name), Spot(first, t[first].start);
      && ValidDays(before) && ValidDays(t[first..last]) && Stretch(t, first, last) && RuleWalk.On(t, first, last, a)
      && (forall b :: b in Walk(t, first, last, a) ==> RuleWalk.On(t, first, last, b))
      && (KeysTell(before) <==> Untied(before) && InTime(t, first, last, Walk(t, first, last, a)))
  {
    hide Blocks, ValidDays, Years, Effects, OfName, Grouped, KeysTell, Untied, Chronological, Walk, InTime,
      DaysStay, RuleWalk.On;
    RunIsStretch(s, t, first, last);
    RunIsOfName(t, first, last);
    assert SplitWell(OfName(s, t[first].name), OfName(t, t[first].name));
    WalkInTimeIff(t, first, last);
  }

  lemma RunIsOfName(t: seq<Rule>, first: nat, last: nat)
    requires Grouped(t) && first < last <= |t|
    requires forall p :: first <= p < last ==> t[p].name == t[first].name
    requires first == 0 || t[first - 1].name != t[first].name
    requires last == |t| || t[last].name != t[first].name
    ensures OfName(t, t[first].name) == t[first..last]
  {
    hide OfName, Grouped;
    var n := t[first].name;
    var a, b, c := t[..first], t[first..last], t[last..];
    OthersDiffer(t, first, last);
    ThreeParts(t, first, last);
    OfNameConcat(a + b, c, n);
    OfNameConcat(a, b, n);
    OfNameNone(a, n);
    OfNameAll(b, n);
    OfNameNone(c, n);
    assert [] + b + [] == b;
  }

  lemma ThreeParts(t: seq<Rule>, first: nat, last: nat)
    requires first <= last <= |t|
    ensures t[..first] + t[first..last] + t[last..] == t
    ensures (forall p :: first <= p < last ==> t[p].name == t[first].name) ==>
      forall r :: r in t[first..last] ==> r.name == t[first].name
  {
    assert t[..first] + t[first..last] == t[..last];
  }

  lemma OthersDiffer(t: seq<Rule>, first: nat, last: nat)
    requires Grouped(t) && first < last <= |t|
    requires first == 0 || t[first - 1].name != t[first].name
    requires last == |t| || t[last].name != t[first].name
    ensures forall r :: r in t[..first] || r in t[last..] ==> r.name != t[first].name
  {
    var n := t[first].name;
    forall p | 0 <= p < first
      ensures t[p].name != n
    {
      var before := t[first - 1].name;
      assert t[p].name == n ==> before == n;
    }
    forall p | last <= p < |t|
      ensures t[p].name != n
    {
      var after := t[last].name;
      assert t[p].name == n ==> after == n;
    }
  }
}
