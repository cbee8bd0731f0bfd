/** The vector of rules and the operations of tz.cpp that rewrite it in place. */
module RuleTable {
  import opened Rules
  import opened RuleSplit
  import opened RuleOrder
  import opened MonthDay
  import opened Calendar

  /** A stretch of rules as `split_overlaps` receives it: one name, sorted, years in order. */
  predicate Slice(s: seq<Rule>) {
    Sorted(s) && Nonempty(s) && SameName(s) && ValidDays(s)
  }

  class Table {
    var rules: seq<Rule>

    constructor (rules: seq<Rule>)
      ensures this.rules == rules
    {
      this.rules := rules;
    }

    /** `std::sort` on `[i, e)`: any sorted permutation will do. */
    method Sort(i: nat, e: nat)
      requires i <= e <= |rules|
      modifies this
      ensures |rules| == old(|rules|) && rules[..i] == old(rules[..i]) && rules[e..] == old(rules[e..])
      ensures Sorted(rules[i..e]) && multiset(rules[i..e]) == multiset(old(rules[i..e]))
    {
      var sorted := SortedCopy(rules[i..e]);
      assert |sorted| == |multiset(sorted)| == |rules[i..e]|;
      var tail := rules[e..];
      rules := rules[..i] + sorted + tail;
      assert rules[i..e] == sorted;
    }

    /** `std::vector::insert`. */
    method Insert(p: nat, r: Rule)
      requires p <= |rules|
      modifies this
      ensures rules == InsertAt(old(rules), p, r)
    {
      rules := InsertAt(rules, p, r);
    }

    /** `Rule::split`: cuts rules `i` and `k`, which overlap, and inserts the pieces. */
    method Split(i: nat, k: nat, e0: nat) returns (e: nat)
      requires i < k < e0 <= |rules|
      requires rules[i].start <= rules[k].start && rules[i].end >= rules[k].start
      requires rules[i].start != rules[k].start || rules[i].end != rules[k].end
      modifies this
      ensures rules == SplitAt(old(rules), i, k)
      ensures e - e0 == |rules| - |old(rules)|
    {
      if rules[i].start == rules[k].start {
        e := SplitSameStart(i, k, e0);
      } else {
        e := SplitLaterStart(i, k, e0);
      }
    }

    /** The first two cases of `Rule::split`. */
    method SplitSameStart(i: nat, k: nat, e0: nat) returns (e: nat)
      requires i < k < e0 <= |rules|
      requires rules[i].start == rules[k].start <= rules[i].end != rules[k].end
      modifies this
      ensures rules == SplitAt(old(rules), i, k)
      ensures e == e0 + 1 && |rules| == |old(rules)| + 1
    {
      hide SplitAt;
      SplitSameStartLayout(rules, i, k);
      if rules[k].end < rules[i].end {
        Insert(k + 1, Piece(rules[i], rules[k].end + 1, rules[i].end));
        e := e0 + 1;
        rules := rules[i := rules[i].(end := rules[k].end)];
      } else {
        Insert(k + 1, Piece(rules[k], rules[i].end + 1, rules[k].end));
        e := e0 + 1;
        rules := rules[k := rules[k].(end := rules[i].end)];
      }
    }

    /** The last three cases of `Rule::split`. */
    method SplitLaterStart(i: nat, k0: nat, e0: nat) returns (e: nat)
      requires i < k0 < e0 <= |rules|
      requires rules[i].start < rules[k0].start <= rules[i].end
      modifies this
      ensures rules == SplitAt(old(rules), i, k0)
      ensures e - e0 == |rules| - |old(rules)|
    {
      hide SplitAt;
      var k := k0;
      SplitLaterStartLayout(rules, i, k);
      if rules[k].end < rules[i].end {
        Insert(k, Piece(rules[i], rules[k].start, rules[k].end));
        k := k + 1;
        Insert(k + 1, Piece(rules[i], rules[k].end + 1, rules[i].end));
        rules := rules[i := rules[i].(end := rules[k].start - 1)];
        e := e0 + 2;
      } else if rules[k].end > rules[i].end {
        Insert(k, Piece(rules[i], rules[k].start, rules[i].end));
        k := k + 1;
        Insert(k + 1, Piece(rules[k], rules[i].end + 1, rules[k].end));
        e := e0 + 2;
        rules := rules[k := rules[k].(end := rules[i].end)];
        rules := rules[i := rules[i].(end := rules[k].start - 1)];
      } else {
        Insert(k, Piece(rules[i], rules[k].start, rules[i].end));
        k := k + 1;
        e := e0 + 1;
        rules := rules[i := rules[i].(end := rules[k].start - 1)];
      }
    }

    /** A cut followed by the sort of everything from `i` to the grown end. */
    method CutAndSort(i: nat, k: nat, e0: nat) returns (e: nat)
      requires i < k < e0 <= |rules|
      requires rules[i].start <= rules[k].start && Overlaps(rules[i], rules[k])
      modifies this
      ensures i <= e <= |rules| && rules[..i] == old(rules[..i]) && rules[e..] == old(rules[e0..])
      ensures Sorted(rules[i..e]) && multiset(rules[i..e]) == multiset(SplitAt(old(rules[i..e0]), 0, k - i))
    {
      hide SplitAt, Sorted;
      SplitLocal(rules, i, k, e0);
      e := Split(i, k, e0);
      Sort(i, e);
    }

    /** The inner loop of `split_overlaps`: cuts rule `i` against every later rule up to `e`. */
    method SplitFirst(first: nat, i: nat, e0: nat) returns (e: nat)
      requires first <= i < e0 <= |rules|
      requires Outer(rules[first..i], rules[i..e0]) && ValidDays(rules[first..e0])
      modifies this
      ensures i < e <= |rules| && rules[..i] == old(rules[..i]) && rules[e..] == old(rules[e0..])
      ensures Outer(rules[first..i], rules[i..e]) && Inner(rules[i..e], e - i)
      ensures Keeps(old(rules[first..e0]), rules[first..e])
    {
      hide Outer, Inner, Keeps, SplitAt, CutPair, Years, Sorted, ValidDays, Overlaps;
      ghost var start, done := rules[first..e0], rules[first..i];
      ghost var bound := Years(start);
      var k := i + 1;
      e := e0;
      Glue(rules, first, i, e);
      InnerBegins(start, done, rules[i..e]);
      while k < e
        invariant i < k <= e <= |rules|
        invariant rules[..i] == old(rules[..i]) && rules[e..] == old(rules[e0..])
        invariant Outer(done, rules[i..e]) && Inner(rules[i..e], k - i)
        invariant Keeps(start, done + rules[i..e]) && e - first <= bound
        decreases first + bound - k
      {
        ghost var s := rules[i..e];
        assert s[0] == rules[i] && s[k - i] == rules[k];
        OuterStarts(done, s, k - i);
        if Overlaps(rules[i], rules[k]) {
          e := CutAndSort(i, k, e);
          ghost var v := rules[i..e];
          assert |v| == e - i;
          SplitStep(start, done, s, k - i, v);
        } else {
          SkipKeepsInner(s, k - i);
        }
        k := k + 1;
      }
      SamePart(rules, old(rules), first, i);
      Glue(rules, first, i, e);
    }

    /** The last loop of `split_overlaps`: rules of a single year get that year's own date. */
    method CanonicalizeDays(first: nat, e: nat)
      requires first <= e <= |rules| && ValidDays(rules[first..e])
      modifies this
      ensures |rules| == |old(rules)| && rules[..first] == old(rules[..first]) && rules[e..] == old(rules[e..])
      ensures Canonical(old(rules[first..e]), rules[first..e])
    {
      hide CanonicalRule, Canonicalize, ValidOn;
      ghost var s := rules;
      assert forall p :: first <= p < e ==> s[first..e][p - first] == s[p];
      assert forall p :: first <= p < e ==> s[p] in s[first..e];
      var j := first;
      while j < e
        invariant first <= j <= e && |rules| == |s|
        invariant forall p :: 0 <= p < |s| && !(first <= p < j) ==> rules[p] == s[p]
        invariant forall p :: first <= p < j ==> rules[p] == CanonicalRule(s[p])
      {
        var r := rules[j];
        assert CanonicalRule(r) == if r.start == r.end then r.(at := r.at.(on := Canonicalize(r.at.on, r.start))) else r
          by { CanonicalRuleDef(r); }
        if r.start == r.end {
          rules := rules[j := r.(at := r.at.(on := Canonicalize(r.at.on, r.start)))];
        }
        j := j + 1;
      }
      assert rules[..first] == s[..first] && rules[e..] == s[e..];
      forall q | 0 <= q < e - first
        ensures rules[first..e][q] == CanonicalRule(s[first..e][q])
      {
        assert rules[first + q] == CanonicalRule(s[first + q]);
      }
    }

    /** The two nested loops of `split_overlaps`: they terminate although they move their own bound. */
    method CutOverlaps(first: nat, e0: nat) returns (e: nat)
      requires first <= e0 <= |rules| && Slice(rules[first..e0])
      modifies this
      ensures first <= e <= |rules| && rules[..first] == old(rules[..first]) && rules[e..] == old(rules[e0..])
      ensures Blocks(rules[first..e]) && Keeps(old(rules[first..e0]), rules[first..e])
      ensures InKeyOrder(rules[first..e]) && Sorted(rules[first..e])
    {
      hide Outer, Inner, Keeps, Years, Sorted, Nonempty, ValidDays, Blocks, InKeyOrder;
      ghost var start := rules[first..e0];
      ghost var bound := Years(start);
      e := e0;
      var i := first;
      SlicesBegin(start);
      assert rules[first..first] == [] && [] + start == start;
      while i + 1 < e
        invariant first <= i <= e <= |rules|
        invariant rules[..first] == old(rules[..first]) && rules[e..] == old(rules[e0..])
        invariant Outer(rules[first..i], rules[i..e]) && Keeps(start, rules[first..e]) && e - first <= bound
        decreases first + bound - i
      {
        ghost var before := rules[first..e];
        KeepsValid(start, before);
        e := SplitFirst(first, i, e);
        ghost var done, s := rules[first..i], rules[i..e];
        Glue(rules, first, i, e);
        NextRule(start, before, done, s);
        MoveOne(rules, first, i, e);
        i := i + 1;
      }
      Glue(rules, first, i, e);
      AllDone(rules[first..i], rules[i..e]);
      KeyOrderIsSorted(rules[first..e]);
    }

    /** `Rule::split_overlaps` on one name's rules `[first, e0)`. The table ends up in blocks and
        says of every year what it said before. The days it names are all kept exactly when those of
        the years it isolates lie in these years. It is in time order, and tied rules share
        their moments, exactly when months and days as written told the order of the moments. */
    method SplitOverlaps(first: nat, e0: nat) returns (e: nat)
      requires first <= e0 <= |rules| && Slice(rules[first..e0])
      modifies this
      ensures first <= e <= |rules| && rules[..first] == old(rules[..first]) && rules[e..] == old(rules[e0..])
      ensures Blocks(rules[first..e])
      ensures ValidDays(rules[first..e]) && OneNameOf(old(rules[first..e0]), rules[first..e])
      ensures Years(rules[first..e]) == Years(old(rules[first..e0])) && Within(old(rules[first..e0]), rules[first..e])
      ensures DaysStay(old(rules[first..e0])) <==>
        forall y :: Effects(rules[first..e], y) == Effects(old(rules[first..e0]), y)
      ensures KeysTell(old(rules[first..e0])) <==> Untied(old(rules[first..e0])) && Chronological(rules[first..e])
    {
      hide Keeps, Years, Sorted, Nonempty, Blocks, Canonical, Effects, OneNameOf, DaysStay, ValidOn, InKeyOrder;
      hide KeysTell, Untied, Chronological, Within;
      ghost var start := rules[first..e0];
      e := CutOverlaps(first, e0);
      ghost var cut := rules[first..e];
      KeepsValid(start, cut);
      CanonicalizeDays(first, e);
      CanonicalBlocks(start, cut, rules[first..e]);
      CutTimeOrder(start, cut, rules[first..e]);
      CutWithin(start, cut, rules[first..e]);
    }
  }

  // ----- What the loops keep

  /** `t` says of every year what `s` says, in as many rule-years, under names of `s`,
      and has the same bounds. */
  ghost predicate Keeps(s: seq<Rule>, t: seq<Rule>) {
    && Years(s) == Years(t)
    && (forall y :: InForce(s, y) == InForce(t, y))
    && ValidDays(t)
    && (forall r :: r in t ==> exists q :: q in s && q.name == r.name)
    && (forall c :: Bound(s, c) <==> Bound(t, c))
  }

  lemma KeepsItself(s: seq<Rule>)
    requires ValidDays(s)
    ensures Keeps(s, s)
  {
  }

  lemma KeepsTransitive(s: seq<Rule>, t: seq<Rule>, u: seq<Rule>)
    requires Keeps(s, t) && Keeps(t, u)
    ensures Keeps(s, u)
  {
    hide InForce, Years, ValidDays, Bound;
    forall r | r in u
      ensures exists q :: q in s && q.name == r.name
    {
      var p :| p in t && p.name == r.name;
      var q :| q in s && q.name == p.name;
    }
  }

  lemma CutNames(a: Rule, b: Rule, r: Rule)
    requires a.start <= b.start && Overlaps(a, b)
    requires var x := CutPair(a, b); r in [x.a, x.b] + Pieces(x)
    ensures (r.name == a.name && r.at == a.at) || (r.name == b.name && r.at == b.at)
  {
  }

  lemma SplitNames(s: seq<Rule>, k: nat, r: Rule)
    requires 1 <= k < |s| && s[0].start <= s[k].start && Overlaps(s[0], s[k]) && r in SplitAt(s, 0, k)
    ensures exists q :: q in s && q.name == r.name && q.at == r.at
  {
    hide CutPair, SplitAt;
    var x := CutPair(s[0], s[k]);
    SplitMember(s, 0, k, r);
    if r in [x.a, x.b] + Pieces(x) {
      CutNames(s[0], s[k], r);
      assert s[0] in s && s[k] in s;
    } else {
      assert r in s;
    }
  }

  lemma SplitKeepsTable(done: seq<Rule>, s: seq<Rule>, k: nat, v: seq<Rule>)
    requires 1 <= k < |s| && s[0].start <= s[k].start && Overlaps(s[0], s[k]) && Nonempty(s) && Resorted(v, s, k)
    requires ValidDays(done + s)
    ensures Keeps(done + s, done + v)
  {
    hide CutPair, SplitAt, InForce, Years, ValidOn, Bound;
    SameMembers(v, SplitAt(s, 0, k));
    forall c
      ensures Bound(done + s, c) <==> Bound(done + v, c)
    {
      SplitBounds(s, k, c);
      SameMembersSameBounds(v, SplitAt(s, 0, k), c);
      BoundAppend(done, v, c);
      BoundAppend(done, s, c);
    }
    forall y
      ensures InForce(done + s, y) == InForce(done + v, y) && Years(done + s) == Years(done + v)
    {
      SplitKeeps(s, 0, k, y);
      Permute(v, SplitAt(s, 0, k), y);
      Append(done, s, y);
      Append(done, v, y);
    }
    assert Years(done + s) == Years(done + v) by { assert InForce(done + s, 0) == InForce(done + v, 0); }
    forall r | r in done + v
      ensures ValidOn(r.at.on) && exists q :: q in done + s && q.name == r.name
    {
      if r in v {
        SplitNames(s, k, r);
        var q :| q in s && q.name == r.name && q.at == r.at;
        assert q in done + s;
      } else {
        assert r in done + s;
      }
    }
  }

  lemma InnerBegins(start: seq<Rule>, done: seq<Rule>, s: seq<Rule>)
    requires |s| > 0 && Outer(done, s) && start == done + s && ValidDays(start)
    ensures Inner(s, 1) && Keeps(start, start) && |start| <= Years(start)
  {
    KeepsItself(start);
    CountBound(start);
  }

  lemma OuterStarts(done: seq<Rule>, s: seq<Rule>, k: nat)
    requires Outer(done, s) && k < |s|
    ensures s[0].start <= s[0].end && s[0].start <= s[k].start <= s[k].end && (k > 0 ==> !Less(s[k], s[0]))
  {
    SortedStarts(s);
    assert s[0] in done + s && s[k] in done + s;
  }

  /** All of one name, a name of `s` if there is any. */
  ghost predicate OneNameOf(s: seq<Rule>, t: seq<Rule>) {
    SameName(t) && forall r :: r in t ==> exists q :: q in s && q.name == r.name
  }

  lemma SlicesBegin(s: seq<Rule>)
    requires Slice(s)
    ensures Outer([], s) && Keeps(s, s) && |s| <= Years(s)
  {
    assert [] + s == s;
    KeepsItself(s);
    CountBound(s);
  }

  lemma KeepsValid(s: seq<Rule>, t: seq<Rule>)
    requires Keeps(s, t)
    ensures ValidDays(t)
  {
  }

  /** From one outer iteration to the next. */
  lemma NextRule(start: seq<Rule>, before: seq<Rule>, done: seq<Rule>, s: seq<Rule>)
    requires |s| > 0 && Outer(done, s) && Inner(s, |s|) && Keeps(start, before) && Keeps(before, done + s)
    ensures Outer(done + [s[0]], s[1..]) && Keeps(start, done + s) && |done + s| <= Years(start)
  {
    FirstIsDone(done, s);
    KeepsTransitive(start, before, done + s);
    CountBound(done + s);
  }

  lemma {:induction false} SameRangesSameYears(s: seq<Rule>, t: seq<Rule>)
    requires |s| == |t| && forall i :: 0 <= i < |s| ==> SameRange(s[i], t[i])
    ensures Years(s) == Years(t)
  {
    if s != [] { SameRangesSameYears(s[1..], t[1..]); }
  }

  /** In the years that the cuts isolate, the days of the rules lie in these years. */
  ghost predicate DaysStay(s: seq<Rule>)
    requires ValidDays(s)
  {
    forall r, y :: r in s && InYears(r, y) && Lone(s, y) ==> StaysInYear(r.at.on, y)
  }

  /** A single-year rule of the cut table comes from a rule that held in that year. */
  lemma CutDaysStay(start: seq<Rule>, cut: seq<Rule>)
    requires ValidDays(start) && Keeps(start, cut) && Blocks(cut) && DaysStay(start)
    ensures forall r :: r in cut && r.start == r.end ==> StaysInYear(r.at.on, r.start)
  {
    hide ValidOn, StaysInYear, InForce, Blocks, Lone;
    forall r | r in cut && r.start == r.end
      ensures StaysInYear(r.at.on, r.start)
    {
      var p :| 0 <= p < |cut| && cut[p] == r;
      var q := Counterpart(cut, start, p, r.start);
      LoneBlock(cut, r, r.start);
      LoneKept(start, cut, r.start);
      assert start[q] in start && start[q].at == r.at by { assert BodyOf(start[q]) == BodyOf(r); }
    }
  }

  lemma LoneKept(start: seq<Rule>, cut: seq<Rule>, y: int)
    requires Keeps(start, cut)
    ensures Lone(start, y) <==> Lone(cut, y)
  {
  }

  lemma CanonicalDayInYear(r: Rule)
    requires ValidOn(r.at.on) && r.start == r.end
    ensures ValidOn(CanonicalRule(r).at.on) && StaysInYear(CanonicalRule(r).at.on, r.start)
  {
    hide ValidOn, StaysInYear, Canonicalize;
    CanonicalizeKeepsDay(r.at.on, r.start);
    var on := Canonicalize(r.at.on, r.start);
    assert on.Fixed? by { CanonicalIsFixed(r.at.on, r.start); }
    FixedStaysInYear(on.m, on.d, r.start);
  }

  lemma CanonicalIsFixed(on: On, y: int)
    requires ValidOn(on)
    ensures Canonicalize(on, y).Fixed?
  {
    hide ToSysDays;
  }

  /** After the last loop, everything in an isolated year takes effect in that year. */
  lemma LoneEffectsInYear(cut: seq<Rule>, final: seq<Rule>, y: int, e: Effect)
    requires ValidDays(cut) && Blocks(cut) && Canonical(cut, final) && ValidDays(final) && Lone(cut, y)
    requires e in Effects(final, y)
    ensures FromDays(e.day).y == y
  {
    hide ValidOn, ToSysDays, Effects, Blocks, Lone, CanonicalRule, FromDays;
    CanonicalIsValid(cut, final);
    var p := EffectMember(final, y, e);
    var r := cut[p];
    assert SameRange(final[p], r) && r in cut && final[p] == CanonicalRule(r);
    LoneBlock(cut, r, y);
    CanonicalDayInYear(r);
  }

  /** A day outside an isolated year is lost. */
  lemma MovedDay(start: seq<Rule>, cut: seq<Rule>, final: seq<Rule>, p: nat, y: int)
    requires ValidDays(start) && Keeps(start, cut) && Blocks(cut) && Canonical(cut, final) && ValidDays(final)
    requires p < |start| && InYears(start[p], y) && Lone(start, y)
    requires ValidOn(start[p].at.on) && !StaysInYear(start[p].at.on, y)
    ensures Effects(final, y) != Effects(start, y)
  {
    hide ValidOn, ToSysDays, Effects, Blocks, Lone, Keeps, Canonical, FromDays;
    EffectPresent(start, p, y);
    KeepsValid(start, cut);
    LoneKept(start, cut, y);
    var e := EffectOf(BodyOf(start[p]), y);
    if e in Effects(final, y) {
      LoneEffectsInYear(cut, final, y, e);
    }
  }

  lemma SameRangesSameBlocks(s: seq<Rule>, t: seq<Rule>)
    requires Blocks(s) && |s| == |t| && forall i :: 0 <= i < |s| ==> SameRange(t[i], s[i])
    ensures Blocks(t)
  {
    forall i, j | 0 <= i < |t| && 0 <= j < |t|
      ensures Apart(t[i], t[j]) && t[i].start <= t[i].end
    {
      assert s[i] in s && s[j] in s;
      assert Apart(s[i], s[j]);
    }
  }

  lemma NamesKept(start: seq<Rule>, cut: seq<Rule>, final: seq<Rule>)
    requires SameName(start) && |final| == |cut| && forall i :: 0 <= i < |cut| ==> final[i].name == cut[i].name
    requires forall r :: r in cut ==> exists q :: q in start && q.name == r.name
    ensures OneNameOf(start, final)
  {
    forall x | x in final
      ensures exists q :: q in start && q.name == x.name
    {
      var p :| 0 <= p < |final| && final[p] == x;
      assert cut[p] in cut;
    }
  }

  /** Canonical days do not change the blocks, and the effects only by days outside isolated years. */
  lemma CanonicalBlocks(start: seq<Rule>, cut: seq<Rule>, final: seq<Rule>)
    requires Slice(start) && Keeps(start, cut) && Blocks(cut) && Canonical(cut, final)
    ensures Blocks(final) && ValidDays(final) && OneNameOf(start, final) && Years(final) == Years(start)
    ensures DaysStay(start) <==> forall y :: Effects(final, y) == Effects(start, y)
  {
    hide Blocks, ValidOn, Effects, InForce, Years, DaysStay, Sorted, Canonical, OneNameOf, SameName;
    CanonicalIsValid(cut, final);
    CanonicalLength(cut, final);
    SameRangesSameYears(final, cut);
    SameRangesSameBlocks(cut, final);
    NamesKept(start, cut, final);
    if DaysStay(start) {
      SameEffects(start, cut, final);
    } else {
      var y := LostEffect(start, cut, final);
    }
  }

  /** No rule of `t` begins before or ends after all of `s`. */
  ghost predicate Within(s: seq<Rule>, t: seq<Rule>) {
    forall r :: r in t ==> (exists q :: q in s && q.start <= r.start) && (exists q :: q in s && r.end <= q.end)
  }

  lemma CutWithin(start: seq<Rule>, cut: seq<Rule>, final: seq<Rule>)
    requires Keeps(start, cut) && Blocks(cut) && Canonical(cut, final)
    ensures Within(start, final)
  {
    hide ValidOn, InForce, Years, Bound, Canonical, Blocks;
    CanonicalIsValid(cut, final);
    CanonicalLength(cut, final);
    assert Nonempty(cut) by { BlocksNonempty(cut); }
    forall r | r in final
      ensures (exists q :: q in start && q.start <= r.start) && (exists q :: q in start && r.end <= q.end)
    {
      var p :| 0 <= p < |final| && final[p] == r;
      assert cut[p] in cut && SameRange(r, cut[p]);
      var q := Counterpart(cut, start, p, r.start);
      var o := Counterpart(cut, start, p, r.end);
      assert start[q] in start && start[o] in start;
    }
  }

  lemma BlocksNonempty(s: seq<Rule>)
    requires Blocks(s)
    ensures Nonempty(s)
  {
  }

  lemma CutTimeOrder(start: seq<Rule>, cut: seq<Rule>, final: seq<Rule>)
    requires Slice(start) && Keeps(start, cut) && Blocks(cut) && InKeyOrder(cut) && Canonical(cut, final)
      && ValidDays(final)
    ensures KeysTell(start) <==> Untied(start) && Chronological(final)
  {
    hide ValidOn, InForce, Years, Blocks, Canonical, KeysTell, Untied, Chronological, Bound, InKeyOrder, Sorted;
    TimeOrderIff(start, cut, final);
  }

  lemma SameEffects(start: seq<Rule>, cut: seq<Rule>, final: seq<Rule>)
    requires ValidDays(start) && Keeps(start, cut) && Blocks(cut) && Canonical(cut, final) && ValidDays(final)
    requires DaysStay(start)
    ensures forall y :: Effects(final, y) == Effects(start, y)
  {
    hide Blocks, ValidOn, Effects, InForce, Years, DaysStay, Canonical, StaysInYear;
    CutDaysStay(start, cut);
    forall y
      ensures Effects(final, y) == Effects(start, y)
    {
      CanonicalKeepsEffects(cut, final, y);
      SameBodiesSameEffects(start, cut, y);
    }
  }

  lemma LostEffect(start: seq<Rule>, cut: seq<Rule>, final: seq<Rule>) returns (y: int)
    requires ValidDays(start) && Keeps(start, cut) && Blocks(cut) && Canonical(cut, final) && ValidDays(final)
    requires !DaysStay(start)
    ensures Effects(final, y) != Effects(start, y)
  {
    hide Blocks, ValidOn, Effects, Keeps, Canonical, StaysInYear, Lone;
    var r, x :| r in start && InYears(r, x) && Lone(start, x) && !StaysInYear(r.at.on, x);
    var p :| 0 <= p < |start| && start[p] == r;
    y := x;
    MovedDay(start, cut, final, p, y);
  }

  /** One cut and sort of the inner loop. */
  lemma SplitStep(start: seq<Rule>, done: seq<Rule>, s: seq<Rule>, k: nat, v: seq<Rule>)
    requires Outer(done, s) && 1 <= k < |s| && Inner(s, k)
    requires s[0].start <= s[k].start && Overlaps(s[0], s[k]) && Resorted(v, s, k)
    requires Keeps(start, done + s)
    ensures Outer(done, v) && k + 1 <= |v| && Inner(v, k + 1)
    ensures Keeps(start, done + v) && |done + v| <= Years(start)
  {
    hide CutPair, SplitAt, InForce, Years, Sorted, ValidDays;
    assert Nonempty(s);
    SplitKeepsInner(s, k, v);
    SplitKeepsOuter(done, s, k, v);
    SplitKeepsTable(done, s, k, v);
    KeepsTransitive(start, done + s, done + v);
    CountBound(done + v);
  }

  /** A split of the whole table is a split of the stretch it happens in. */
  lemma SplitLocal(s: seq<Rule>, i: nat, k: nat, e: nat)
    requires i < k < e <= |s| && s[i].start <= s[k].start && Overlaps(s[i], s[k])
    ensures var t, e' := SplitAt(s, i, k), e + |SplitAt(s, i, k)| - |s|;
      && i <= e' <= |t| && t[..i] == s[..i] && t[e'..] == s[e..]
      && t[i..e'] == SplitAt(s[i..e], 0, k - i)
  {
    hide CutPair, SplitAt;
    SplitWithin(s, i, k, e);
    Sandwich(s[..i], SplitAt(s[i..e], 0, k - i), s[e..]);
  }

  lemma Sandwich(p: seq<Rule>, w: seq<Rule>, q: seq<Rule>)
    ensures var t := p + w + q; t[..|p|] == p && t[|p|..|t| - |q|] == w && t[|t| - |q|..] == q
  {
  }

  lemma SplitWithin(s: seq<Rule>, i: nat, k: nat, e: nat)
    requires i < k < e <= |s| && s[i].start <= s[k].start && Overlaps(s[i], s[k])
    ensures SplitAt(s, i, k) == s[..i] + SplitAt(s[i..e], 0, k - i) + s[e..]
  {
    hide CutPair;
    var u := s[i..e];
    assert u[0] == s[i] && u[k - i] == s[k];
    var c := CutPair(s[i], s[k]);
    assert u[1..k - i] == s[i + 1..k] by { Subslice(s, i, e, 1, k - i); }
    assert u[k - i + 1..] == s[k + 1..e] by { Subslice(s, i, e, k - i + 1, e - i); }
    assert s[k + 1..] == s[k + 1..e] + s[e..];
    assert u[..0] == [];
    Reassociate(s[..i], [c.a], s[i + 1..k], c.before, [c.b], c.after, s[k + 1..e], s[e..]);
  }

  lemma Assoc(p: seq<Rule>, q: seq<Rule>, r: seq<Rule>)
    ensures p + q + r == p + (q + r)
  {
  }

  lemma Reassociate(p: seq<Rule>, a: seq<Rule>, m: seq<Rule>, x: seq<Rule>, b: seq<Rule>, y: seq<Rule>,
      t: seq<Rule>, r: seq<Rule>)
    ensures p + a + m + x + b + y + (t + r) == p + ([] + a + m + x + b + y + t) + r
  {
    assert [] + a == a;
    Assoc(p, a, m);
    Assoc(p, a + m, x);
    Assoc(p, a + m + x, b);
    Assoc(p, a + m + x + b, y);
    var w := a + m + x + b + y;
    Assoc(p + w, t, r);
    Assoc(p, w, t);
  }

  lemma Glue(r: seq<Rule>, a: nat, b: nat, c: nat)
    requires a <= b <= c <= |r|
    ensures r[a..b] + r[b..c] == r[a..c] && |r[b..c]| == c - b
  {
  }

  lemma SamePart(r: seq<Rule>, q: seq<Rule>, a: nat, b: nat)
    requires a <= b <= |r| && b <= |q| && r[..b] == q[..b]
    ensures r[a..b] == q[a..b]
  {
    assert r[a..b] == r[..b][a..] && q[a..b] == q[..b][a..];
  }

  lemma MoveOne(r: seq<Rule>, a: nat, b: nat, c: nat)
    requires a <= b < c <= |r|
    ensures r[a..b + 1] == r[a..b] + [r[b..c][0]] && r[b + 1..c] == r[b..c][1..]
  {
  }

  lemma Subslice(s: seq<Rule>, i: nat, e: nat, a: nat, b: nat)
    requires i <= e <= |s| && a <= b <= e - i
    ensures s[i..e][a..b] == s[i + a..i + b]
  {
    var u, v := s[i..e][a..b], s[i + a..i + b];
    assert |u| == |v|;
    forall j | 0 <= j < |u|
      ensures u[j] == v[j]
    {
      assert u[j] == s[i..e][a + j] == s[i + a + j];
    }
  }

  // ----- The table laid out by inserts and updates

  function InsertAt(s: seq<Rule>, p: nat, r: Rule): seq<Rule>
    requires p <= |s|
  {
    s[..p] + [r] + s[p..]
  }

  lemma SplitSameStartLayout(s: seq<Rule>, i: nat, k: nat)
    requires i < k < |s| && s[i].start == s[k].start <= s[i].end != s[k].end
    ensures SplitAt(s, i, k) ==
      if s[k].end < s[i].end then InsertAt(s, k + 1, Piece(s[i], s[k].end + 1, s[i].end))[i := s[i].(end := s[k].end)]
      else InsertAt(s, k + 1, Piece(s[k], s[i].end + 1, s[k].end))[k := s[k].(end := s[i].end)]
  {
    var c := CutPair(s[i], s[k]);
    InsertAfter(s, i, k, c.a, c.b, c.after[0]);
  }

  lemma InsertAfter(s: seq<Rule>, i: nat, k: nat, a: Rule, b: Rule, p: Rule)
    requires i < k < |s|
    ensures |InsertAt(s, k + 1, p)| == |s| + 1
    ensures InsertAt(s, k + 1, p)[i := a][k := b] == s[..i] + [a] + s[i + 1..k] + [] + [b] + [p] + s[k + 1..]
  {
    assert s[..k + 1] == s[..i] + [s[i]] + s[i + 1..k] + [s[k]];
  }

  lemma SplitLaterStartLayout(s: seq<Rule>, i: nat, k: nat)
    requires i < k < |s| && s[i].start < s[k].start <= s[i].end
    ensures var a := s[i].(end := s[k].start - 1);
      SplitAt(s, i, k) ==
      if s[k].end < s[i].end then
        InsertAt(InsertAt(s, k, Piece(s[i], s[k].start, s[k].end)), k + 2, Piece(s[i], s[k].end + 1, s[i].end))[i := a]
      else if s[k].end > s[i].end then
        InsertAt(InsertAt(s, k, Piece(s[i], s[k].start, s[i].end)), k + 2, Piece(s[k], s[i].end + 1, s[k].end))
          [k + 1 := s[k].(end := s[i].end)][i := a]
      else
        InsertAt(s, k, Piece(s[i], s[k].start, s[i].end))[i := a]
  {
    hide InsertAt;
    var c := CutPair(s[i], s[k]);
    if c.after != [] {
      InsertAround(s, i, k, c.a, c.b, c.before[0], c.after[0]);
    } else {
      InsertBefore(s, i, k, c.a, c.before[0]);
    }
  }

  lemma InsertAround(s: seq<Rule>, i: nat, k: nat, a: Rule, b: Rule, p: Rule, q: Rule)
    requires i < k < |s|
    ensures |InsertAt(s, k, p)| == |s| + 1 && |InsertAt(InsertAt(s, k, p), k + 2, q)| == |s| + 2
    ensures var t := InsertAt(InsertAt(s, k, p), k + 2, q);
      t[k + 1 := b][i := a] == s[..i] + [a] + s[i + 1..k] + [p] + [b] + [q] + s[k + 1..] && t[k + 1] == s[k]
  {
    var t := InsertAt(InsertAt(s, k, p), k + 2, q);
    assert t == s[..k] + [p] + [s[k]] + [q] + s[k + 1..];
    assert s[..k] == s[..i] + [s[i]] + s[i + 1..k];
  }

  lemma InsertBefore(s: seq<Rule>, i: nat, k: nat, a: Rule, p: Rule)
    requires i < k < |s|
    ensures |InsertAt(s, k, p)| == |s| + 1
    ensures InsertAt(s, k, p)[i := a] == s[..i] + [a] + s[i + 1..k] + [p] + [s[k]] + [] + s[k + 1..]
  {
    assert s[..k] == s[..i] + [s[i]] + s[i + 1..k];
    assert s[k..] == [s[k]] + s[k + 1..];
  }

  /** A sorted permutation, by insertion. */
  method SortedCopy(s: seq<Rule>) returns (t: seq<Rule>)
    ensures Sorted(t) && multiset(t) == multiset(s)
  {
    t := [];
    var n := 0;
    while n < |s|
      invariant n <= |s| && Sorted(t) && multiset(t) == multiset(s[..n])
    {
      t := InsertSorted(t, s[n]);
      assert s[..n + 1] == s[..n] + [s[n]];
      n := n + 1;
    }
    assert s[..n] == s;
  }

  method InsertSorted(s: seq<Rule>, r: Rule) returns (t: seq<Rule>)
    requires Sorted(s)
    ensures Sorted(t) && multiset(t) == multiset(s) + multiset{r}
  {
    var p := 0;
    while p < |s| && !Less(r, s[p])
      invariant p <= |s| && forall q :: 0 <= q < p ==> !Less(r, s[q])
    {
      p := p + 1;
    }
    t := s[..p] + [r] + s[p..];
    assert s == s[..p] + s[p..];
    forall q | p <= q < |s|
      ensures !Less(s[q], r)
    {
      if p < q { LessTransitive(r, s[p], s[q]); }
    }
  }
}
