/** Time-zone rules (`detail::Rule` of tz.cpp): their order, what a table of them says about
    each year, and how a pair of overlapping rules is cut. */
module Rules {
  import opened MonthDay

  /** A rule is in force from year `start` to year `end`, both included. */
  datatype Rule = Rule(name: string, start: int, end: int, at: MonthDayTime, save: int, abbrev: string)

  /** All of a rule except its name and years: when in the year it starts, and what it changes. */
  datatype Body = Body(at: MonthDayTime, save: int, abbrev: string)

  function BodyOf(r: Rule): Body {
    Body(r.at, r.save, r.abbrev)
  }

  predicate InYears(r: Rule, y: int) {
    r.start <= y <= r.end
  }

  predicate SameRange(x: Rule, y: Rule) {
    x.start == y.start && x.end == y.end
  }

  predicate Nonempty(s: seq<Rule>) {
    forall r :: r in s ==> r.start <= r.end
  }

  predicate SameName(s: seq<Rule>) {
    forall x, y :: x in s && y in s ==> x.name == y.name
  }

  /** `operator<` on rules of one name: by starting year, month, ending year and day. */
  predicate Less(x: Rule, y: Rule) {
    if x.start != y.start then x.start < y.start
    else if x.at.on.m != y.at.on.m then x.at.on.m < y.at.on.m
    else if x.end != y.end then x.end < y.end
    else DayOf(x.at.on) < DayOf(y.at.on)
  }

  predicate ValidDays(s: seq<Rule>) {
    forall r :: r in s ==> ValidOn(r.at.on)
  }

  predicate Sorted(s: seq<Rule>) {
    forall i, j :: 0 <= i < j < |s| ==> !Less(s[j], s[i])
  }

  /** `Rule::overlaps`, for `x` starting no later than `y`. */
  predicate Overlaps(x: Rule, y: Rule)
    requires x.start <= y.start
  {
    if y.start > x.end then false else !(x.start == y.start && x.end == y.end)
  }

  // ----- What a table says

  /** The bodies in force in year `y`, with multiplicity. */
  function InForce(s: seq<Rule>, y: int): multiset<Body> {
    if s == [] then multiset{}
    else (if InYears(s[0], y) then multiset{BodyOf(s[0])} else multiset{}) + InForce(s[1..], y)
  }

  /** Rule-years: the lengths of all year ranges added up. */
  function Years(s: seq<Rule>): int {
    if s == [] then 0 else s[0].end - s[0].start + 1 + Years(s[1..])
  }

  lemma {:induction false} Append(s: seq<Rule>, t: seq<Rule>, y: int)
    ensures InForce(s + t, y) == InForce(s, y) + InForce(t, y)
    ensures Years(s + t) == Years(s) + Years(t)
  {
    if s == [] {
      assert s + t == t;
    } else {
      assert (s + t)[1..] == s[1..] + t;
      Append(s[1..], t, y);
    }
  }

  /** A rule can be taken out of the middle of a table. */
  lemma TakeOut(t: seq<Rule>, p: nat, y: int)
    requires p < |t|
    ensures var rest := t[..p] + t[p + 1..];
      && multiset(t) == multiset{t[p]} + multiset(rest)
      && InForce(t, y) == InForce([t[p]], y) + InForce(rest, y)
      && Years(t) == Years([t[p]]) + Years(rest)
  {
    var front, back := t[..p], t[p + 1..];
    assert t == front + ([t[p]] + back);
    Append(front, back, y);
    Append(front, [t[p]] + back, y);
    Append([t[p]], back, y);
  }

  /** Order does not matter for what a table says. */
  lemma {:induction false} Permute(s: seq<Rule>, t: seq<Rule>, y: int)
    requires multiset(s) == multiset(t)
    ensures InForce(s, y) == InForce(t, y) && Years(s) == Years(t)
  {
    hide InForce, Years;
    if s == [] {
      assert |multiset(t)| == 0;
      assert t == [];
    } else {
      var r := s[0];
      assert r in multiset(s);
      var p :| 0 <= p < |t| && t[p] == r;
      TakeOut(s, 0, y);
      TakeOut(t, p, y);
      var rest, rest' := s[..0] + s[0 + 1..], t[..p] + t[p + 1..];
      assert multiset(rest) == multiset(s) - multiset{r};
      assert multiset(rest') == multiset(t) - multiset{r};
      Permute(rest, rest', y);
    }
  }

  /** Rule-years bound the number of rules. */
  lemma {:induction false} CountBound(s: seq<Rule>)
    requires Nonempty(s)
    ensures |s| <= Years(s)
  {
    if s != [] {
      assert s[0] in s;
      CountBound(s[1..]);
    }
  }

  // ----- Cutting one pair

  /** What a pair of rules becomes: the two shortened rules and the pieces put before and after
      the second. */
  datatype Cut = Cut(a: Rule, before: seq<Rule>, b: Rule, after: seq<Rule>)

  /** The copying constructor of `Rule` that replaces the years. */
  function Piece(r: Rule, start: int, end: int): Rule {
    r.(start := start, end := end)
  }

  /** The five cases of `Rule::split`. */
  function CutPair(a: Rule, b: Rule): Cut
    requires a.start <= b.start && Overlaps(a, b)
  {
    if a.start == b.start then
      if b.end < a.end then
        Cut(a.(end := b.end), [], b, [Piece(a, b.end + 1, a.end)])
      else
        Cut(a, [], b.(end := a.end), [Piece(b, a.end + 1, b.end)])
    else if b.end < a.end then
      Cut(a.(end := b.start - 1), [Piece(a, b.start, b.end)], b, [Piece(a, b.end + 1, a.end)])
    else if b.end > a.end then
      Cut(a.(end := b.start - 1), [Piece(a, b.start, a.end)], b.(end := a.end), [Piece(b, a.end + 1, b.end)])
    else
      Cut(a.(end := b.start - 1), [Piece(a, b.start, a.end)], b, [])
  }

  /** The pieces a cut adds. */
  function Pieces(c: Cut): seq<Rule> {
    c.before + c.after
  }

  /** The table after rules `i` and `k` have been cut. */
  function SplitAt(s: seq<Rule>, i: nat, k: nat): seq<Rule>
    requires i < k < |s| && s[i].start <= s[k].start && Overlaps(s[i], s[k])
  {
    var c := CutPair(s[i], s[k]);
    s[..i] + [c.a] + s[i + 1..k] + c.before + [c.b] + c.after + s[k + 1..]
  }

  /** A rule cut in two after year `m`. */
  lemma Halves(r: Rule, m: int, y: int)
    requires r.start <= m < r.end
    ensures InForce([r.(end := m)], y) + InForce([Piece(r, m + 1, r.end)], y) == InForce([r], y)
    ensures Years([r.(end := m)]) + Years([Piece(r, m + 1, r.end)]) == Years([r])
  {
    hide InForce, Years;
    Single(r, y);
    Single(r.(end := m), y);
    Single(Piece(r, m + 1, r.end), y);
  }

  lemma Single(r: Rule, y: int)
    ensures InForce([r], y) == if InYears(r, y) then multiset{BodyOf(r)} else multiset{}
    ensures Years([r]) == r.end - r.start + 1
  {
  }

  lemma Two(a: Rule, b: Rule, y: int)
    ensures InForce([a, b], y) == InForce([a], y) + InForce([b], y) && Years([a, b]) == Years([a]) + Years([b])
  {
    Append([a], [b], y);
    assert [a, b] == [a] + [b];
  }

  /** Between them, the rules of a cut say of each year what the pair said. */
  lemma CutKeeps(a: Rule, b: Rule, y: int)
    requires a.start <= b.start && Overlaps(a, b) && a.start <= a.end && b.start <= b.end
    ensures var c := CutPair(a, b);
      && InForce([c.a], y) + InForce([c.b], y) + InForce(c.before, y) + InForce(c.after, y)
         == InForce([a], y) + InForce([b], y)
      && Years([c.a]) + Years([c.b]) + Years(c.before) + Years(c.after) == Years([a]) + Years([b])
  {
    hide InForce, Years;
    assert InForce([], y) == multiset{} && Years([]) == 0 by { Nothing(y); }
    if a.start == b.start {
      if b.end < a.end { Halves(a, b.end, y); } else { Halves(b, a.end, y); }
    } else {
      Halves(a, b.start - 1, y);
      if b.end < a.end {
        Halves(Piece(a, b.start, a.end), b.end, y);
      } else if b.end > a.end {
        Halves(b, a.end, y);
      }
    }
  }

  lemma Nothing(y: int)
    ensures InForce([], y) == multiset{} && Years([]) == 0
  {
  }

  lemma CutNonempty(a: Rule, b: Rule)
    requires a.start <= b.start && Overlaps(a, b) && a.start <= a.end && b.start <= b.end
    ensures var c := CutPair(a, b); Nonempty([c.a, c.b] + Pieces(c))
  {
  }

  /** The rules of a split table: those the cut made, and those it left alone. */
  lemma SplitShape(s: seq<Rule>, i: nat, k: nat)
    requires i < k < |s| && s[i].start <= s[k].start && Overlaps(s[i], s[k])
    ensures var c, rest := CutPair(s[i], s[k]), s[..i] + s[i + 1..k] + s[k + 1..];
      && multiset(s) == multiset([s[i], s[k]] + rest)
      && multiset(SplitAt(s, i, k)) == multiset([c.a, c.b] + Pieces(c) + rest)
  {
    hide CutPair;
    var c, p, q, r := CutPair(s[i], s[k]), s[..i], s[i + 1..k], s[k + 1..];
    Parts(s, i, k);
    Gather(p, s[i], q, s[k], r);
    GatherPieces(p, c.a, q, c.before, c.b, c.after, r);
  }

  lemma Parts(s: seq<Rule>, i: nat, k: nat)
    requires i < k < |s|
    ensures s == s[..i] + [s[i]] + s[i + 1..k] + [s[k]] + s[k + 1..]
  {
  }

  lemma Gather(p: seq<Rule>, a: Rule, q: seq<Rule>, b: Rule, r: seq<Rule>)
    ensures multiset(p + [a] + q + [b] + r) == multiset([a, b] + (p + q + r))
  {
    assert [a, b] == [a] + [b];
  }

  lemma GatherPieces(p: seq<Rule>, a: Rule, q: seq<Rule>, before: seq<Rule>, b: Rule, after: seq<Rule>, r: seq<Rule>)
    ensures multiset(p + [a] + q + before + [b] + after + r) == multiset([a, b] + (before + after) + (p + q + r))
  {
    assert [a, b] == [a] + [b];
  }

  /** `Rule::split` conserves what the table says of every year. */
  lemma SplitKeeps(s: seq<Rule>, i: nat, k: nat, y: int)
    requires i < k < |s| && s[i].start <= s[k].start && Overlaps(s[i], s[k]) && Nonempty(s)
    ensures InForce(SplitAt(s, i, k), y) == InForce(s, y)
    ensures Years(SplitAt(s, i, k)) == Years(s)
  {
    hide CutPair, SplitAt, InForce, Years;
    var c, rest := CutPair(s[i], s[k]), s[..i] + s[i + 1..k] + s[k + 1..];
    SplitShape(s, i, k);
    CutKeeps(s[i], s[k], y);
    Append([s[i], s[k]], rest, y);
    Two(s[i], s[k], y);
    Permute(s, [s[i], s[k]] + rest, y);
    Append([c.a, c.b] + Pieces(c), rest, y);
    Append([c.a, c.b], Pieces(c), y);
    Append(c.before, c.after, y);
    Two(c.a, c.b, y);
    Permute(SplitAt(s, i, k), [c.a, c.b] + Pieces(c) + rest, y);
  }

  /** Every rule after a split is one the cut made or one it left alone. */
  lemma SplitMember(s: seq<Rule>, i: nat, k: nat, r: Rule)
    requires i < k < |s| && s[i].start <= s[k].start && Overlaps(s[i], s[k])
    ensures r in SplitAt(s, i, k) <==>
      var c := CutPair(s[i], s[k]); r in [c.a, c.b] + Pieces(c) || r in s[..i] + s[i + 1..k] + s[k + 1..]
  {
    hide CutPair;
  }

  lemma SplitNonempty(s: seq<Rule>, i: nat, k: nat)
    requires i < k < |s| && s[i].start <= s[k].start && Overlaps(s[i], s[k]) && Nonempty(s)
    ensures Nonempty(SplitAt(s, i, k))
  {
    hide CutPair, SplitAt;
    CutNonempty(s[i], s[k]);
    forall r | r in SplitAt(s, i, k)
      ensures r.start <= r.end
    {
      SplitMember(s, i, k, r);
    }
  }

  // ----- Canonical days

  /** A rule's effect in one year: the day and time it takes effect, and what it changes. */
  datatype Effect = Effect(day: int, seconds: int, clock: Clock, save: int, abbrev: string)

  function EffectOf(b: Body, y: int): Effect
    requires ValidOn(b.at.on)
  {
    Effect(ToSysDays(b.at.on, y), b.at.seconds, b.at.clock, b.save, b.abbrev)
  }

  /** The effects in year `y`, with multiplicity. */
  function Effects(s: seq<Rule>, y: int): multiset<Effect>
    requires ValidDays(s)
  {
    if s == [] then multiset{}
    else (if InYears(s[0], y) then multiset{EffectOf(BodyOf(s[0]), y)} else multiset{}) + Effects(s[1..], y)
  }

  /** Effects agree when everything does but the way the day is written. */
  lemma SameEffectIff(a: Body, b: Body, y: int)
    requires ValidOn(a.at.on) && ValidOn(b.at.on)
    ensures EffectOf(a, y) == EffectOf(b, y) <==>
      && ToSysDays(a.at.on, y) == ToSysDays(b.at.on, y) && a.at.seconds == b.at.seconds && a.at.clock == b.at.clock
      && a.save == b.save && a.abbrev == b.abbrev
  {
    hide ToSysDays;
  }

  lemma {:induction false} EffectsAppend(s: seq<Rule>, t: seq<Rule>, y: int)
    requires ValidDays(s) && ValidDays(t)
    ensures ValidDays(s + t) && Effects(s + t, y) == Effects(s, y) + Effects(t, y)
  {
    hide ToSysDays, ValidOn;
    if s == [] {
      assert s + t == t;
    } else {
      assert (s + t)[1..] == s[1..] + t;
      EffectsAppend(s[1..], t, y);
    }
  }

  /** Some rule carries each body in force. */
  lemma {:induction false} InForceMember(s: seq<Rule>, y: int, b: Body) returns (p: nat)
    requires b in InForce(s, y)
    ensures p < |s| && InYears(s[p], y) && BodyOf(s[p]) == b
  {
    if InYears(s[0], y) && BodyOf(s[0]) == b {
      p := 0;
    } else {
      var q := InForceMember(s[1..], y, b);
      p := q + 1;
    }
  }

  lemma EffectsTakeOut(t: seq<Rule>, p: nat, y: int)
    requires p < |t| && ValidDays(t) && InYears(t[p], y)
    ensures var rest := t[..p] + t[p + 1..];
      && ValidDays(rest)
      && Effects(t, y) == multiset{EffectOf(BodyOf(t[p]), y)} + Effects(rest, y)
      && InForce(t, y) == multiset{BodyOf(t[p])} + InForce(rest, y)
  {
    hide ToSysDays, ValidOn;
    var front, back := t[..p], t[p + 1..];
    assert t == front + ([t[p]] + back);
    EffectsAppend(front, back, y);
    EffectsAppend([t[p]], back, y);
    EffectsAppend(front, [t[p]] + back, y);
    TakeOut(t, p, y);
  }

  lemma EffectPresent(t: seq<Rule>, p: nat, y: int)
    requires p < |t| && ValidDays(t) && InYears(t[p], y)
    ensures ValidOn(t[p].at.on) && EffectOf(BodyOf(t[p]), y) in Effects(t, y)
  {
    hide ToSysDays, ValidOn, Effects;
    assert t[p] in t;
    EffectsTakeOut(t, p, y);
  }

  /** Some rule has each effect. */
  lemma {:induction false} EffectMember(s: seq<Rule>, y: int, e: Effect) returns (p: nat)
    requires ValidDays(s) && e in Effects(s, y)
    ensures p < |s| && InYears(s[p], y) && ValidOn(s[p].at.on) && EffectOf(BodyOf(s[p]), y) == e
  {
    hide ToSysDays, ValidOn;
    EffectsCons(s, y);
    if InYears(s[0], y) && EffectOf(BodyOf(s[0]), y) == e {
      p := 0;
    } else {
      var q := EffectMember(s[1..], y, e);
      p := q + 1;
    }
  }

  lemma {:induction false} NothingInForce(t: seq<Rule>, y: int)
    requires ValidDays(t) && InForce(t, y) == multiset{}
    ensures Effects(t, y) == multiset{}
  {
    hide ToSysDays, ValidOn;
    if t != [] {
      var b := BodyOf(t[0]);
      assert b !in InForce(t, y);
      NothingInForce(t[1..], y);
    }
  }

  /** The bodies in force determine the effects. */
  lemma {:induction false} SameBodiesSameEffects(s: seq<Rule>, t: seq<Rule>, y: int)
    requires ValidDays(s) && ValidDays(t) && InForce(s, y) == InForce(t, y)
    ensures Effects(s, y) == Effects(t, y)
    decreases s, 1
  {
    hide ToSysDays, ValidOn;
    if s == [] {
      NothingInForce(t, y);
    } else if !InYears(s[0], y) {
      SameBodiesSameEffects(s[1..], t, y);
    } else {
      assert BodyOf(s[0]) in InForce(s, y);
      SameBodiesTakeOut(s, t, y);
    }
  }

  lemma {:induction false} SameBodiesTakeOut(s: seq<Rule>, t: seq<Rule>, y: int)
    requires ValidDays(s) && ValidDays(t) && InForce(s, y) == InForce(t, y)
    requires s != [] && InYears(s[0], y) && BodyOf(s[0]) in InForce(s, y)
    ensures Effects(s, y) == Effects(t, y)
    decreases s, 0
  {
    hide ToSysDays, ValidOn, InForce, Effects;
    var b := BodyOf(s[0]);
    var p := InForceMember(t, y, b);
    EffectsTakeOut(s, 0, y);
    EffectsTakeOut(t, p, y);
    var rest, rest' := s[..0] + s[0 + 1..], t[..p] + t[p + 1..];
    assert InForce(rest, y) == InForce(s, y) - multiset{b};
    assert InForce(rest', y) == InForce(t, y) - multiset{b};
    SameBodiesSameEffects(rest, rest', y);
  }

  /** The last loop of `split_overlaps`: a rule of one year gets that year's own date. */
  function CanonicalRule(r: Rule): Rule
    requires ValidOn(r.at.on)
  {
    if r.start == r.end then r.(at := r.at.(on := Canonicalize(r.at.on, r.start))) else r
  }

  lemma CanonicalRuleDef(r: Rule)
    requires ValidOn(r.at.on)
    ensures CanonicalRule(r) == if r.start == r.end then r.(at := r.at.(on := Canonicalize(r.at.on, r.start))) else r
  {
  }

  lemma CanonicalRuleKeeps(r: Rule, y: int)
    requires ValidOn(r.at.on) && InYears(r, y) && (r.start == r.end ==> StaysInYear(r.at.on, y))
    ensures ValidOn(CanonicalRule(r).at.on)
    ensures EffectOf(BodyOf(CanonicalRule(r)), y) == EffectOf(BodyOf(r), y)
  {
    hide ToSysDays, ValidOn, StaysInYear, Canonicalize;
    CanonicalizeKeepsDay(r.at.on, y);
  }

  lemma EffectsCons(s: seq<Rule>, y: int)
    requires s != [] && ValidDays(s)
    ensures ValidOn(s[0].at.on) && ValidDays(s[1..])
    ensures Effects(s, y) ==
      (if InYears(s[0], y) then multiset{EffectOf(BodyOf(s[0]), y)} else multiset{}) + Effects(s[1..], y)
  {
    hide ToSysDays, ValidOn;
    assert s[0] in s;
  }

  ghost predicate Canonical(s: seq<Rule>, t: seq<Rule>)
    requires ValidDays(s)
  {
    |t| == |s| && forall i :: 0 <= i < |s| ==> t[i] == CanonicalRule(s[i])
  }

  lemma CanonicalIsValid(s: seq<Rule>, t: seq<Rule>)
    requires ValidDays(s) && Canonical(s, t)
    ensures ValidDays(t) && forall i :: 0 <= i < |s| ==> SameRange(t[i], s[i]) && t[i].name == s[i].name
  {
    hide ToSysDays, ValidOn, CanonicalRule;
    forall i | 0 <= i < |s|
      ensures ValidOn(t[i].at.on) && SameRange(t[i], s[i]) && t[i].name == s[i].name
    {
      CanonicalRuleRange(s[i]);
    }
  }

  /** Canonical days do not change any effect as long as days stay in their years. */
  lemma {:induction false} CanonicalKeepsEffects(s: seq<Rule>, t: seq<Rule>, y: int)
    requires ValidDays(s) && Canonical(s, t)
    requires forall r :: r in s && r.start == r.end ==> StaysInYear(r.at.on, r.start)
    ensures ValidDays(t) && Effects(t, y) == Effects(s, y)
  {
    hide ToSysDays, ValidOn, StaysInYear, CanonicalRule, Effects, EffectOf;
    CanonicalIsValid(s, t);
    if s == [] {
      assert t == s;
    } else {
      assert s[0] in s;
      EffectsCons(s, y);
      EffectsCons(t, y);
      if InYears(s[0], y) { CanonicalRuleKeeps(s[0], y); }
      CanonicalKeepsEffects(s[1..], t[1..], y);
    }
  }

  lemma CanonicalRuleRange(r: Rule)
    requires ValidOn(r.at.on)
    ensures SameRange(CanonicalRule(r), r) && CanonicalRule(r).name == r.name && ValidOn(CanonicalRule(r).at.on)
  {
    hide ToSysDays, StaysInYear, Canonicalize, ValidOn;
    CanonicalizeIsValid(r.at.on, r.start);
  }
}
