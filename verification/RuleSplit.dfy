/** `Rule::split_overlaps` of tz.cpp leaves a table in blocks: any two rules of it are in force
    in exactly the same years or in no common year.

    The argument follows the years at which some rule begins or has just ended. A cut never
    adds such a year, so it is enough that no rule has one strictly inside it. */
module RuleSplit {
  import opened Rules
  import opened MonthDay

  predicate BoundOf(r: Rule, c: int) {
    c == r.start || c == r.end + 1
  }

  predicate Inside(r: Rule, c: int) {
    r.start < c <= r.end
  }

  /** Some rule of the table begins in year `c` or has just ended. */
  predicate Bound(s: seq<Rule>, c: int) {
    exists r :: r in s && BoundOf(r, c)
  }

  /** No bound of the table lies inside `r`. */
  ghost predicate Atomic(r: Rule, s: seq<Rule>) {
    forall c :: Bound(s, c) ==> !Inside(r, c)
  }

  /** Identical or disjoint year ranges. */
  predicate Apart(x: Rule, y: Rule) {
    SameRange(x, y) || x.end < y.start || y.end < x.start
  }

  /** The goal: the table falls into blocks of rules with identical ranges, in ascending order. */
  predicate Blocks(s: seq<Rule>) {
    && Nonempty(s)
    && (forall i, j :: 0 <= i < j < |s| ==> s[i].start <= s[j].start)
    && (forall x, y :: x in s && y in s ==> Apart(x, y))
  }

  /** By starting year, month and day, whatever the ending year. */
  predicate NotAfter(x: Rule, y: Rule) {
    || x.start < y.start
    || (x.start == y.start && x.at.on.m < y.at.on.m)
    || (x.start == y.start && x.at.on.m == y.at.on.m && DayOf(x.at.on) <= DayOf(y.at.on))
  }

  predicate InKeyOrder(s: seq<Rule>) {
    forall i, j :: 0 <= i < j < |s| ==> NotAfter(s[i], s[j])
  }

  /** In blocks, this is the order of `operator<`. */
  lemma KeyOrderIsSorted(s: seq<Rule>)
    requires Blocks(s)
    ensures InKeyOrder(s) <==> Sorted(s)
  {
    forall i, j | 0 <= i < j < |s|
      ensures NotAfter(s[i], s[j]) <==> !Less(s[j], s[i])
    {
      assert s[i] in s && s[j] in s;
      assert Apart(s[i], s[j]);
    }
  }

  /** Rules without a bound inside are apart. */
  lemma AtomicApart(x: Rule, y: Rule, s: seq<Rule>)
    requires x in s && y in s && Atomic(x, s) && Atomic(y, s)
    ensures Apart(x, y)
  {
    assert Bound(s, x.start) by { assert BoundOf(x, x.start); }
    assert Bound(s, x.end + 1) by { assert BoundOf(x, x.end + 1); }
    assert Bound(s, y.start) by { assert BoundOf(y, y.start); }
    assert Bound(s, y.end + 1) by { assert BoundOf(y, y.end + 1); }
  }

  // ----- Invariants of the two loops. `done` is the part before `i`, `s` the part from `i` on.

  /** A bound inside a rule still to be treated belongs to a rule still to be treated. */
  ghost predicate Covered(s: seq<Rule>, all: seq<Rule>) {
    forall r, c :: r in s && Inside(r, c) && Bound(all, c) ==> Bound(s, c)
  }

  ghost predicate Outer(done: seq<Rule>, s: seq<Rule>) {
    && Sorted(s) && Nonempty(done + s)
    && (forall r :: r in done ==> Atomic(r, done + s))
    && Covered(s, done + s)
    && InKeyOrder(done)
    && (forall r, q :: r in done && q in s ==> NotAfter(r, q))
  }

  /** `r` has no bound inside the years `lo` to `hi`. */
  predicate Clear(r: Rule, lo: int, hi: int) {
    !(lo < r.start <= hi) && !(lo < r.end + 1 <= hi)
  }

  /** The rules before `k` have been compared with the first. */
  ghost predicate Inner(s: seq<Rule>, k: nat)
    requires 1 <= k <= |s|
  {
    && (forall m :: 1 <= m < k ==> Clear(s[m], s[0].start, s[0].end))
    && (forall m :: 1 <= m < k ==> NotAfter(s[0], s[m]))
    && (Bound(s[1..], s[0].end + 1) || forall m :: 1 <= m < k ==> !Inside(s[m], s[0].end + 1))
  }

  // ----- Bounds are conserved

  lemma CutBounds(a: Rule, b: Rule, c: int)
    requires a.start <= b.start && Overlaps(a, b) && a.start <= a.end && b.start <= b.end
    ensures var x := CutPair(a, b);
      (BoundOf(a, c) || BoundOf(b, c)) <==> Bound([x.a, x.b] + Pieces(x), c)
  {
    var x := CutPair(a, b);
    var t := [x.a, x.b] + Pieces(x);
    assert t[0] == x.a && t[1] == x.b;
    if a.start == b.start {
      assert t[2] == x.after[0];
    } else {
      assert t[2] == x.before[0];
      if a.end != b.end { assert t[3] == x.after[0]; }
    }
    if BoundOf(a, c) || BoundOf(b, c) {
      assert t[0] in t && t[1] in t && t[2] in t && (|t| > 3 ==> t[3] in t);
      assert BoundOf(t[0], c) || BoundOf(t[1], c) || BoundOf(t[2], c) || (|t| > 3 && BoundOf(t[3], c));
    }
  }

  /** Splitting neither adds nor removes a bound. */
  lemma SplitBounds(s: seq<Rule>, k: nat, c: int)
    requires 1 <= k < |s| && s[0].start <= s[k].start && Overlaps(s[0], s[k]) && Nonempty(s)
    ensures Bound(SplitAt(s, 0, k), c) <==> Bound(s, c)
  {
    hide CutPair, SplitAt;
    var x, rest := CutPair(s[0], s[k]), s[..0] + s[1..k] + s[k + 1..];
    CutBounds(s[0], s[k], c);
    if Bound(SplitAt(s, 0, k), c) {
      var r :| r in SplitAt(s, 0, k) && BoundOf(r, c);
      SplitMember(s, 0, k, r);
      if r in rest { assert r in s; } else { assert Bound([x.a, x.b] + Pieces(x), c); }
    }
    if Bound(s, c) {
      var r :| r in s && BoundOf(r, c);
      if r == s[0] || r == s[k] {
        var q :| q in [x.a, x.b] + Pieces(x) && BoundOf(q, c);
        SplitMember(s, 0, k, q);
      } else {
        assert r in rest;
        SplitMember(s, 0, k, r);
      }
    }
  }

  lemma SameMembersSameBounds(s: seq<Rule>, t: seq<Rule>, c: int)
    requires multiset(s) == multiset(t)
    ensures Bound(s, c) <==> Bound(t, c)
  {
    SameMembers(s, t);
  }

  lemma SameMembers(s: seq<Rule>, t: seq<Rule>)
    requires multiset(s) == multiset(t)
    ensures forall r :: r in s <==> r in t
  {
    forall r
      ensures r in s <==> r in t
    {
      assert r in s <==> r in multiset(s);
      assert r in t <==> r in multiset(t);
    }
  }

  lemma BoundAppend(s: seq<Rule>, t: seq<Rule>, c: int)
    ensures Bound(s + t, c) <==> Bound(s, c) || Bound(t, c)
  {
    if Bound(s, c) { var r :| r in s && BoundOf(r, c); assert r in s + t; }
    if Bound(t, c) { var r :| r in t && BoundOf(r, c); assert r in s + t; }
  }

  // ----- Where the sort puts things

  /** In a sorted table, what is smaller than the rule at `m` comes before it. */
  lemma SmallerComeFirst(v: seq<Rule>, smaller: multiset<Rule>, m: nat)
    requires m < |v| && Sorted(v) && smaller <= multiset(v)
    requires forall r :: r in smaller ==> Less(r, v[m])
    ensures |smaller| <= m
  {
    assert v == v[..m] + v[m..];
    forall r
      ensures smaller[r] <= multiset(v[..m])[r]
    {
      if r in smaller && r in v[m..] {
        var q :| m <= q < |v| && v[q] == r;
        assert false;
      }
      assert multiset(v)[r] == multiset(v[..m])[r] + multiset(v[m..])[r];
    }
    assert smaller <= multiset(v[..m]);
    MultisetSize(smaller, multiset(v[..m]));
  }

  lemma MultisetSize(x: multiset<Rule>, y: multiset<Rule>)
    requires x <= y
    ensures |x| <= |y|
  {
    assert y == x + (y - x);
  }

  /** What a cut makes of a pair is no smaller than its first rule, or has the same years. */
  lemma CutFirst(a: Rule, b: Rule, f: Rule)
    requires a.start <= b.start && Overlaps(a, b) && a.start <= a.end && b.start <= b.end && !Less(b, a)
    requires var x := CutPair(a, b); f in [x.a, x.b] + Pieces(x)
    ensures var x := CutPair(a, b); SameRange(f, x.a) || !Less(f, x.a)
  {
  }

  /** The first rule of the sorted table has the years the cut left to the first rule. */
  lemma FirstAfterSort(s: seq<Rule>, k: nat, v: seq<Rule>)
    requires 1 <= k < |s| && Sorted(s) && Nonempty(s) && s[0].start <= s[k].start && Overlaps(s[0], s[k])
    requires Sorted(v) && multiset(v) == multiset(SplitAt(s, 0, k))
    ensures |v| > 0 && SameRange(v[0], CutPair(s[0], s[k]).a)
  {
    hide CutPair, SplitAt;
    var x := CutPair(s[0], s[k]);
    SameMembers(v, SplitAt(s, 0, k));
    SplitMember(s, 0, k, x.a);
    assert x.a in [x.a, x.b] + Pieces(x);
    assert x.a in v;
    var p :| 0 <= p < |v| && v[p] == x.a;
    var f := v[0];
    assert f in v;
    SplitMember(s, 0, k, f);
    CutClear(s[0], s[k], f);
    if f in [x.a, x.b] + Pieces(x) {
      CutFirst(s[0], s[k], f);
    } else {
      assert f in s[1..];
      var q :| 1 <= q < |s| && s[q] == f;
      LessTransitive(x.a, s[0], f);
    }
  }

  /** A rule of one range is clear of any years another of that range is clear of. */
  lemma CutClear(a: Rule, b: Rule, r: Rule)
    requires a.start <= b.start && Overlaps(a, b) && a.start <= a.end && b.start <= b.end
    ensures var x := CutPair(a, b);
      && x.a.start == a.start && x.a.end <= a.end
      && (r in [x.a, x.b] + Pieces(x) ==> Clear(r, x.a.start, x.a.end))
      && !Less(a, x.a) && !Less(b, x.b)
  {
  }

  lemma LessTransitive(x: Rule, y: Rule, z: Rule)
    requires !Less(y, x) && !Less(z, y)
    ensures !Less(z, x)
  {
  }

  lemma NotLessClear(x: Rule, y: Rule, lo: int, hi: int)
    requires !Less(y, x) && Clear(x, lo, hi) && !Clear(y, lo, hi)
    ensures Less(x, y)
  {
  }

  /** After the cut and the sort, the rules up to `k` are clear of the first rule's new years: one
      that is not stood after `k`, and all that stood up to `k` are smaller. */
  lemma StaysClear(s: seq<Rule>, k: nat, v: seq<Rule>, m: nat)
    requires 1 <= k < |s| && Sorted(s) && Nonempty(s) && s[0].start <= s[k].start && Overlaps(s[0], s[k])
    requires Sorted(v) && multiset(v) == multiset(SplitAt(s, 0, k))
    requires Inner(s, k)
    requires 1 <= m <= k && m < |v|
    ensures var a := CutPair(s[0], s[k]).a; Clear(v[m], a.start, a.end)
  {
    var x := CutPair(s[0], s[k]);
    var r := v[m];
    if !Clear(r, x.a.start, x.a.end) {
      CutClear(s[0], s[k], r);
      SameMembers(v, SplitAt(s, 0, k));
      assert r in v;
      SplitMember(s, 0, k, r);
      var p := ClearUpTo(s, k, r);
      var head := [x.a] + s[1..k] + [x.b];
      forall q | q in multiset(head)
        ensures Less(q, r)
      {
        HeadSmaller(s, k, q, p);
      }
      assert multiset(head) <= multiset(v) by { HeadKept(s, k); }
      assert |multiset(head)| == |head| == k + 1;
      SmallerComeFirst(v, multiset(head), m);
    }
  }

  /** A rule with a bound in the first rule's new years stood after `k`. */
  lemma ClearUpTo(s: seq<Rule>, k: nat, r: Rule) returns (p: nat)
    requires 1 <= k < |s| && Nonempty(s) && s[0].start <= s[k].start && Overlaps(s[0], s[k]) && Inner(s, k)
    requires var x := CutPair(s[0], s[k]);
      && !Clear(r, x.a.start, x.a.end) && (r in [x.a, x.b] + Pieces(x) || r in s[..0] + s[1..k] + s[k + 1..])
    ensures k < p < |s| && s[p] == r
  {
    CutClear(s[0], s[k], r);
    assert r in s[k + 1..];
    p :| k < p < |s| && s[p] == r;
  }

  /** Every rule the cut made of, or left among, the first `k + 1` is smaller than it. */
  lemma HeadSmaller(s: seq<Rule>, k: nat, q: Rule, p: nat)
    requires 1 <= k < p < |s| && Sorted(s) && Nonempty(s) && s[0].start <= s[k].start && Overlaps(s[0], s[k])
      && Inner(s, k)
    requires var x := CutPair(s[0], s[k]); q in [x.a] + s[1..k] + [x.b] && !Clear(s[p], x.a.start, x.a.end)
    ensures Less(q, s[p])
  {
    var x := CutPair(s[0], s[k]);
    CutClear(s[0], s[k], q);
    if q == x.a {
      LessTransitive(q, s[0], s[p]);
    } else if q == x.b {
      LessTransitive(q, s[k], s[p]);
    } else {
      assert q in s[1..k];
      var j :| 1 <= j < k && s[j] == q;
      assert Clear(s[j], s[0].start, s[0].end);
    }
    NotLessClear(q, s[p], x.a.start, x.a.end);
  }

  /** After the cut and the sort, the rules up to `k` are not before the first in month and day either.
      For a later end year the sort alone does not say so. */
  lemma StaysBehind(s: seq<Rule>, k: nat, v: seq<Rule>, m: nat)
    requires 1 <= k < |s| && Sorted(s) && Nonempty(s) && s[0].start <= s[k].start && Overlaps(s[0], s[k])
    requires Sorted(v) && multiset(v) == multiset(SplitAt(s, 0, k))
    requires Inner(s, k)
    requires 1 <= m <= k && m < |v|
    ensures NotAfter(v[0], v[m])
  {
    hide CutPair, SplitAt, Sorted;
    FirstAfterSort(s, k, v);
    assert !Less(v[m], v[0]) by { SortedPair(v, 0, m); }
    if !NotAfter(v[0], v[m]) {
      var p := LongerStoodLater(s, k, v, m);
      var head := [CutPair(s[0], s[k]).a] + s[1..k] + [CutPair(s[0], s[k]).b];
      forall q | q in multiset(head)
        ensures Less(q, v[m])
      {
        HeadBefore(s, k, q, p);
      }
      assert multiset(head) <= multiset(v) by { HeadKept(s, k); }
      assert |multiset(head)| == |head| == k + 1;
      SmallerComeFirst(v, multiset(head), m);
    }
  }

  lemma SortedPair(v: seq<Rule>, i: nat, j: nat)
    requires Sorted(v) && i < j < |v|
    ensures !Less(v[j], v[i])
  {
  }

  /** A rule with the first one's start and month but an earlier day ends later, and stood after `k`. */
  lemma LongerStoodLater(s: seq<Rule>, k: nat, v: seq<Rule>, m: nat) returns (p: nat)
    requires 1 <= k < |s| && Sorted(s) && Nonempty(s) && s[0].start <= s[k].start && Overlaps(s[0], s[k])
    requires Sorted(v) && multiset(v) == multiset(SplitAt(s, 0, k))
    requires Inner(s, k) && 1 <= m < |v| && !Less(v[m], v[0]) && !NotAfter(v[0], v[m])
    requires SameRange(v[0], CutPair(s[0], s[k]).a)
    ensures k < p < |s| && s[p] == v[m] && Sooner(s[0], v[m]) && v[m].end > CutPair(s[0], s[k]).a.end
  {
    hide CutPair, SplitAt, Sorted, Bound;
    var x, r := CutPair(s[0], s[k]), v[m];
    SameMembers(v, SplitAt(s, 0, k));
    assert r in v;
    SplitMember(s, 0, k, r);
    CutStart(s[0], s[k], r);
    assert r in s[1..k] + s[k + 1..];
    var j :| 1 <= j < |s| && s[j] == r;
    SortedPair(s, 0, j);
    assert !Less(x.a, v[0]) by { FirstIsLeast(s, k, v); }
    assert Sooner(s[0], r);
    assert !NotAfter(s[0], r) && forall i :: 1 <= i < k ==> NotAfter(s[0], s[i]);
    assert r in s[k + 1..];
    p :| k < p < |s| && s[p] == r;
  }

  /** The same start and month, and an earlier day. */
  predicate Sooner(x: Rule, r: Rule) {
    r.start == x.start && r.at.on.m == x.at.on.m && DayOf(r.at.on) < DayOf(x.at.on)
  }

  lemma FirstIsLeast(s: seq<Rule>, k: nat, v: seq<Rule>)
    requires 1 <= k < |s| && s[0].start <= s[k].start && Overlaps(s[0], s[k])
    requires Sorted(v) && multiset(v) == multiset(SplitAt(s, 0, k)) && |v| > 0
    ensures !Less(CutPair(s[0], s[k]).a, v[0])
  {
    hide CutPair, SplitAt;
    var a := CutPair(s[0], s[k]).a;
    SameMembers(v, SplitAt(s, 0, k));
    SplitMember(s, 0, k, a);
    assert a in v;
    var j :| 0 <= j < |v| && v[j] == a;
  }

  /** What a cut leaves of a pair in the year it starts has the same years. */
  lemma CutStart(a: Rule, b: Rule, r: Rule)
    requires a.start <= b.start && Overlaps(a, b) && a.start <= a.end && b.start <= b.end
    ensures var x := CutPair(a, b);
      && x.a.start == a.start && x.a.at == a.at && x.a.end <= a.end && x.b.start == b.start && x.b.at == b.at
      && (r in [x.a, x.b] + Pieces(x) && r.start == a.start ==> r.end == x.a.end)
  {
  }

  lemma HeadBefore(s: seq<Rule>, k: nat, q: Rule, p: nat)
    requires 1 <= k < p < |s| && Sorted(s) && Nonempty(s) && s[0].start <= s[k].start && Overlaps(s[0], s[k])
      && Inner(s, k)
    requires Sooner(s[0], s[p]) && s[p].end > CutPair(s[0], s[k]).a.end
    requires var x := CutPair(s[0], s[k]); q in [x.a] + s[1..k] + [x.b]
    ensures Less(q, s[p])
  {
    hide CutPair, Sorted, Bound;
    var x := CutPair(s[0], s[k]);
    CutStart(s[0], s[k], q);
    SortedPair(s, 0, k);
    SortedPair(s, k, p);
    if q != x.a && q != x.b {
      assert q in s[1..k];
      var j :| 1 <= j < k && s[j] == q;
      SortedPair(s, 0, j);
      SortedPair(s, j, p);
    } else if q == x.b {
      assert q in [x.a, x.b] + Pieces(x);
    }
  }

  lemma HeadKept(s: seq<Rule>, k: nat)
    requires 1 <= k < |s| && s[0].start <= s[k].start && Overlaps(s[0], s[k])
    ensures var x := CutPair(s[0], s[k]); multiset([x.a] + s[1..k] + [x.b]) <= multiset(SplitAt(s, 0, k))
  {
    hide CutPair;
    var x := CutPair(s[0], s[k]);
    Regroup([x.a] + s[1..k], x.before, [x.b], x.after + s[k + 1..]);
    assert SplitAt(s, 0, k) == [x.a] + s[1..k] + x.before + [x.b] + (x.after + s[k + 1..]);
  }

  lemma Regroup(p: seq<Rule>, q: seq<Rule>, r: seq<Rule>, t: seq<Rule>)
    ensures multiset(p + r) <= multiset(p + q + r + t)
  {
  }

  // ----- The loop steps

  lemma CutParents(a: Rule, b: Rule, r: Rule)
    requires a.start <= b.start && Overlaps(a, b) && a.start <= a.end && b.start <= b.end
    requires var x := CutPair(a, b); r in [x.a, x.b] + Pieces(x)
    ensures (r.at == a.at && a.start <= r.start) || (r.at == b.at && b.start <= r.start)
    ensures forall c :: Inside(r, c) ==> Inside(a, c) || Inside(b, c)
  {
  }

  /** Both shortened rules have a bound right after the first one's new years. */
  lemma CutMeets(a: Rule, b: Rule)
    requires a.start <= b.start && Overlaps(a, b) && a.start <= a.end && b.start <= b.end
    ensures var x := CutPair(a, b); BoundOf(x.a, x.a.end + 1) && BoundOf(x.b, x.a.end + 1)
  {
  }

  /** One of two rules of a table is not its first. */
  lemma OneIsNotFirst(v: seq<Rule>, x: Rule, y: Rule)
    requires |v| > 0 && multiset([x, y]) <= multiset(v)
    ensures x in v[1..] || y in v[1..]
  {
    assert v == [v[0]] + v[1..];
    assert multiset(v) == multiset{v[0]} + multiset(v[1..]);
    if x == y {
      assert multiset([x, y])[x] == 2;
      assert x in multiset(v[1..]);
    } else if v[0] == x {
      assert multiset([x, y])[y] >= 1;
      assert y in multiset(v[1..]);
    } else {
      assert multiset([x, y])[x] >= 1;
      assert x in multiset(v[1..]);
    }
  }

  ghost predicate Resorted(v: seq<Rule>, s: seq<Rule>, k: nat)
    requires 1 <= k < |s| && s[0].start <= s[k].start && Overlaps(s[0], s[k])
  {
    Sorted(v) && multiset(v) == multiset(SplitAt(s, 0, k))
  }

  lemma SplitGrows(s: seq<Rule>, k: nat, v: seq<Rule>)
    requires 1 <= k < |s| && s[0].start <= s[k].start && Overlaps(s[0], s[k]) && Resorted(v, s, k)
    ensures |v| >= |s|
  {
    hide CutPair;
    assert |v| == |multiset(v)| == |SplitAt(s, 0, k)| >= |s|;
  }

  /** After the cut and the sort, another rule has a bound right after the first. */
  lemma BoundAfterFirst(s: seq<Rule>, k: nat, v: seq<Rule>)
    requires 1 <= k < |s| && Sorted(s) && Nonempty(s) && s[0].start <= s[k].start && Overlaps(s[0], s[k])
    requires Resorted(v, s, k)
    ensures |v| > 0 && Bound(v[1..], v[0].end + 1)
  {
    hide CutPair, SplitAt, Sorted, Less;
    var x := CutPair(s[0], s[k]);
    FirstAfterSort(s, k, v);
    CutMeets(s[0], s[k]);
    assert multiset([x.a, x.b]) <= multiset(v) by { SplitShape(s, 0, k); }
    OneIsNotFirst(v, x.a, x.b);
  }

  lemma SplitKeepsInner(s: seq<Rule>, k: nat, v: seq<Rule>)
    requires 1 <= k < |s| && Sorted(s) && Nonempty(s) && s[0].start <= s[k].start && Overlaps(s[0], s[k])
    requires Inner(s, k) && Resorted(v, s, k)
    ensures k + 1 <= |v| && Inner(v, k + 1)
  {
    hide CutPair, SplitAt, Sorted, Less, NotAfter, Clear, Bound;
    SplitGrows(s, k, v);
    FirstAfterSort(s, k, v);
    BoundAfterFirst(s, k, v);
    forall m | 1 <= m < k + 1
      ensures Clear(v[m], v[0].start, v[0].end) && NotAfter(v[0], v[m])
    {
      StaysClear(s, k, v, m);
      StaysBehind(s, k, v, m);
    }
  }

  /** The rest of the table keeps its bounds, so what is done stays done. */
  lemma SplitKeepsOuter(done: seq<Rule>, s: seq<Rule>, k: nat, v: seq<Rule>)
    requires Outer(done, s) && 1 <= k < |s| && s[0].start <= s[k].start && Overlaps(s[0], s[k])
    requires Resorted(v, s, k)
    ensures Outer(done, v)
  {
    hide CutPair, SplitAt, Sorted;
    SameMembers(v, SplitAt(s, 0, k));
    assert Nonempty(s);
    forall c
      ensures Bound(v, c) <==> Bound(s, c)
      ensures Bound(done + v, c) <==> Bound(done + s, c)
    {
      SplitBounds(s, k, c);
      SameMembersSameBounds(v, SplitAt(s, 0, k), c);
      BoundAppend(done, v, c);
      BoundAppend(done, s, c);
    }
    SplitNonempty(s, 0, k);
    forall r, c | r in v && Inside(r, c) && Bound(done + v, c)
      ensures Bound(v, c)
    {
      MemberParents(s, k, r);
    }
    forall r, q | r in done && q in v
      ensures NotAfter(r, q)
    {
      MemberParents(s, k, q);
      var parent :| parent in s && parent.at == q.at && parent.start <= q.start;
      assert NotAfter(r, parent);
    }
  }

  /** A rule after the split lies within the years of one before it. */
  lemma MemberParents(s: seq<Rule>, k: nat, r: Rule)
    requires 1 <= k < |s| && s[0].start <= s[k].start && Overlaps(s[0], s[k]) && Nonempty(s)
    requires r in SplitAt(s, 0, k)
    ensures exists q :: q in s && q.at == r.at && q.start <= r.start
    ensures forall c :: Inside(r, c) ==> exists q :: q in s && Inside(q, c)
  {
    hide CutPair, SplitAt;
    var x := CutPair(s[0], s[k]);
    SplitMember(s, 0, k, r);
    if r in [x.a, x.b] + Pieces(x) {
      CutParents(s[0], s[k], r);
      assert s[0] in s && s[k] in s;
    } else {
      assert r in s;
    }
  }

  /** Rules that do not overlap the first need no cut. */
  lemma SkipKeepsInner(s: seq<Rule>, k: nat)
    requires 1 <= k < |s| && Inner(s, k) && s[0].start <= s[k].start <= s[k].end && !Overlaps(s[0], s[k])
    requires s[0].start <= s[0].end && !Less(s[k], s[0])
    ensures Inner(s, k + 1)
  {
  }

  /** Once every rule has been compared with the first, no bound lies inside the first. */
  lemma FirstIsAtomic(s: seq<Rule>, all: seq<Rule>)
    requires |s| > 0 && Inner(s, |s|) && Covered(s, all)
    ensures Atomic(s[0], all)
  {
    forall c | Bound(all, c)
      ensures !Inside(s[0], c)
    {
      assert s[0] in s;
      if Bound(s, c) {
        var r :| r in s && BoundOf(r, c);
        var m :| 0 <= m < |s| && s[m] == r;
        assert m > 0 ==> Clear(s[m], s[0].start, s[0].end);
      }
    }
  }

  /** And the bound right after the first, if it lies inside another rule, is not lost with it. */
  lemma RestIsCovered(s: seq<Rule>, all: seq<Rule>)
    requires |s| > 0 && Inner(s, |s|) && Covered(s, all)
    requires forall r :: r in s ==> s[0].start <= r.start
    ensures Covered(s[1..], all)
  {
    var rest := s[1..];
    forall r, c | r in rest && Inside(r, c) && Bound(all, c)
      ensures Bound(rest, c)
    {
      assert r in s;
      var m :| 1 <= m < |s| && s[m] == r;
      var q :| q in s && BoundOf(q, c);
      var p :| 0 <= p < |s| && s[p] == q;
      if p > 0 {
        assert q == rest[p - 1];
      } else {
        assert c == s[0].end + 1;
      }
    }
  }

  lemma SortedStarts(s: seq<Rule>)
    requires Sorted(s)
    ensures forall i, j :: 0 <= i < j < |s| ==> s[i].start <= s[j].start
    ensures forall r :: r in s ==> s[0].start <= r.start
  {
    assert forall i, j :: 0 <= i < j < |s| ==> !Less(s[j], s[i]);
  }

  /** So the first is done. */
  lemma FirstIsDone(done: seq<Rule>, s: seq<Rule>)
    requires |s| > 0 && Outer(done, s) && Inner(s, |s|)
    ensures Outer(done + [s[0]], s[1..])
  {
    hide Bound, Clear, Inside;
    var all := done + s;
    assert done + [s[0]] + s[1..] == all;
    SortedStarts(s);
    FirstIsAtomic(s, all);
    RestIsCovered(s, all);
    assert forall r :: r in s[1..] ==> r in s;
    assert s[0] in s;
  }

  /** A single rule left needs no treatment, and then the whole table is in blocks. */
  lemma AllDone(done: seq<Rule>, s: seq<Rule>)
    requires |s| <= 1 && Outer(done, s)
    ensures Blocks(done + s) && InKeyOrder(done + s)
  {
    var all := done + s;
    assert forall i, j :: 0 <= i < j < |all| ==> all[i] in done && (j < |done| ==>
      all[i] == done[i] && all[j] == done[j]);
    assert InKeyOrder(all);
    forall r | r in all
      ensures Atomic(r, all)
    {
      if r !in done {
        assert r == s[0];
      }
    }
    forall x, y | x in all && y in all
      ensures Apart(x, y)
    {
      AtomicApart(x, y, all);
    }
  }
}
