/** `transform` of docopt.py: expands a usage pattern into a single choice between cases. */
module Docopt {

  datatype Pattern =
    | Leaf(name: string)
    | Required(children: seq<Pattern>)
    | Optional(children: seq<Pattern>)
    | OptionsShortcut(children: seq<Pattern>)
    | Either(children: seq<Pattern>)
    | OneOrMore(children: seq<Pattern>)

  /** What one case asks for: its leaves, with multiplicity. */
  type Case = multiset<string>

  // ----- The expansion, by recursion on the pattern

  /** `x` added to every case. */
  function Shift(x: Case, b: seq<Case>): (r: seq<Case>)
    ensures |r| == |b| && forall i :: 0 <= i < |b| ==> r[i] == x + b[i]
  {
    seq(|b|, i requires 0 <= i < |b| => x + b[i])
  }

  /** Every case of `a` together with every case of `b`. */
  function Cross(a: seq<Case>, b: seq<Case>): seq<Case> {
    if a == [] then [] else Shift(a[0], b) + Cross(a[1..], b)
  }

  /** The cases of a pattern: a choice offers the cases of its alternatives; anything optional counts
      as given, and anything repeated as given twice. */
  function Expand(p: Pattern): seq<Case>
    decreases p, 1
  {
    match p
    case Leaf(name) => [multiset{name}]
    case Either(cs) => ExpandChoice(cs)
    case OneOrMore(cs) => Cross(ExpandAll(cs), ExpandAll(cs))
    case Required(cs) => ExpandAll(cs)
    case Optional(cs) => ExpandAll(cs)
    case OptionsShortcut(cs) => ExpandAll(cs)
  }

  /** The cases of patterns that are all asked for. */
  function ExpandAll(ps: seq<Pattern>): seq<Case>
    decreases ps, 0
  {
    if ps == [] then [multiset{}] else Cross(Expand(ps[0]), ExpandAll(ps[1..]))
  }

  function ExpandChoice(ps: seq<Pattern>): seq<Case>
    decreases ps, 0
  {
    if ps == [] then [] else Expand(ps[0]) + ExpandChoice(ps[1..])
  }

  // ----- Laws of the expansion

  lemma ShiftZero(b: seq<Case>)
    ensures Shift(multiset{}, b) == b
  {
    forall i | 0 <= i < |b|
      ensures Shift(multiset{}, b)[i] == b[i]
    {
      assert multiset{} + b[i] == b[i];
    }
  }

  lemma ShiftTwice(x: Case, y: Case, b: seq<Case>)
    ensures Shift(x, Shift(y, b)) == Shift(x + y, b)
  {
    forall i | 0 <= i < |b|
      ensures Shift(x, Shift(y, b))[i] == Shift(x + y, b)[i]
    {
      assert x + (y + b[i]) == (x + y) + b[i];
    }
  }

  lemma ShiftConcat(x: Case, a: seq<Case>, b: seq<Case>)
    ensures Shift(x, a + b) == Shift(x, a) + Shift(x, b)
  {
  }

  lemma CrossUnit(b: seq<Case>)
    ensures Cross([multiset{}], b) == b
  {
    ShiftZero(b);
    assert Cross([multiset{}], b) == Shift(multiset{}, b) + Cross([], b);
  }

  lemma {:induction false} CrossConcat(a: seq<Case>, b: seq<Case>, c: seq<Case>)
    ensures Cross(a + b, c) == Cross(a, c) + Cross(b, c)
  {
    if a == [] {
      assert a + b == b;
    } else {
      assert (a + b)[1..] == a[1..] + b;
      CrossConcat(a[1..], b, c);
    }
  }

  lemma {:induction false} CrossShiftLeft(x: Case, a: seq<Case>, b: seq<Case>)
    ensures Cross(Shift(x, a), b) == Shift(x, Cross(a, b))
  {
    if a != [] {
      assert Shift(x, a)[1..] == Shift(x, a[1..]);
      CrossShiftLeft(x, a[1..], b);
      ShiftTwice(x, a[0], b);
      ShiftConcat(x, Shift(a[0], b), Cross(a[1..], b));
    }
  }

  lemma {:induction false} CrossShiftRight(x: Case, a: seq<Case>, b: seq<Case>)
    ensures Cross(a, Shift(x, b)) == Shift(x, Cross(a, b))
  {
    if a != [] {
      CrossShiftRight(x, a[1..], b);
      ShiftTwice(x, a[0], b);
      ShiftTwice(a[0], x, b);
      assert x + a[0] == a[0] + x;
      ShiftConcat(x, Shift(a[0], b), Cross(a[1..], b));
    }
  }

  lemma {:induction false} CrossAssociates(a: seq<Case>, b: seq<Case>, c: seq<Case>)
    ensures Cross(Cross(a, b), c) == Cross(a, Cross(b, c))
  {
    if a != [] {
      CrossAssociates(a[1..], b, c);
      CrossConcat(Shift(a[0], b), Cross(a[1..], b), c);
      CrossShiftLeft(a[0], b, c);
    }
  }

  lemma {:induction false} ExpandAllConcat(p: seq<Pattern>, q: seq<Pattern>)
    ensures ExpandAll(p + q) == Cross(ExpandAll(p), ExpandAll(q))
  {
    if p == [] {
      assert p + q == q;
      CrossUnit(ExpandAll(q));
    } else {
      assert (p + q)[1..] == p[1..] + q;
      ExpandAllConcat(p[1..], q);
      CrossAssociates(Expand(p[0]), ExpandAll(p[1..]), ExpandAll(q));
    }
  }

  // ----- The expansion says what was asked for

  lemma {:induction false} CrossMember(a: seq<Case>, b: seq<Case>, c: Case)
    ensures c in Cross(a, b) <==> exists x, y :: x in a && y in b && c == x + y
    ensures |Cross(a, b)| == |a| * |b|
  {
    if a != [] {
      CrossMember(a[1..], b, c);
      Grow(|a| - 1, |b|);
      assert a == [a[0]] + a[1..];
      if c in Cross(a, b) {
        if c in Shift(a[0], b) {
          var i :| 0 <= i < |b| && Shift(a[0], b)[i] == c;
          assert a[0] in a && b[i] in b;
        } else {
          var x, y :| x in a[1..] && y in b && c == x + y;
          assert x in a;
        }
      }
      if x, y :| x in a && y in b && c == x + y {
        if x in a[1..] {
          assert c in Cross(a[1..], b);
        } else {
          var i :| 0 <= i < |b| && b[i] == y;
          assert Shift(a[0], b)[i] == c;
        }
      }
    }
  }

  lemma Grow(n: nat, m: nat)
    ensures (n + 1) * m == n * m + m
  {
  }

  /** `c` is a case of a pattern: one leaf, a case of some alternative, or one case of each child put
      together, and twice so for what may be repeated. */
  ghost predicate Offers(p: Pattern, c: Case)
    decreases p, 1
  {
    match p
    case Leaf(name) => c == multiset{name}
    case Either(cs) => exists i :: 0 <= i < |cs| && Offers(cs[i], c)
    case OneOrMore(cs) => exists x, y :: OffersAll(cs, x) && OffersAll(cs, y) && c == x + y
    case Required(cs) => OffersAll(cs, c)
    case Optional(cs) => OffersAll(cs, c)
    case OptionsShortcut(cs) => OffersAll(cs, c)
  }

  ghost predicate OffersAll(ps: seq<Pattern>, c: Case)
    decreases ps, 0
  {
    if ps == [] then c == multiset{}
    else exists x, y :: Offers(ps[0], x) && OffersAll(ps[1..], y) && c == x + y
  }

  lemma {:induction false} ExpandOffers(p: Pattern, c: Case)
    ensures c in Expand(p) <==> Offers(p, c)
    decreases p, 1
  {
    match p
    case Leaf(_) =>
    case Either(cs) => ChoiceOffers(cs, c);
    case OneOrMore(cs) =>
      CrossMember(ExpandAll(cs), ExpandAll(cs), c);
      forall x
        ensures x in ExpandAll(cs) <==> OffersAll(cs, x)
      {
        AllOffer(cs, x);
      }
    case Required(cs) => AllOffer(cs, c);
    case Optional(cs) => AllOffer(cs, c);
    case OptionsShortcut(cs) => AllOffer(cs, c);
  }

  lemma {:induction false} AllOffer(ps: seq<Pattern>, c: Case)
    ensures c in ExpandAll(ps) <==> OffersAll(ps, c)
    decreases ps, 0
  {
    if ps != [] {
      CrossMember(Expand(ps[0]), ExpandAll(ps[1..]), c);
      forall x
        ensures x in Expand(ps[0]) <==> Offers(ps[0], x)
        ensures x in ExpandAll(ps[1..]) <==> OffersAll(ps[1..], x)
      {
        ExpandOffers(ps[0], x);
        AllOffer(ps[1..], x);
      }
    }
  }

  lemma {:induction false} ChoiceOffers(ps: seq<Pattern>, c: Case)
    ensures c in ExpandChoice(ps) <==> exists i :: 0 <= i < |ps| && Offers(ps[i], c)
    decreases ps, 0
  {
    if ps != [] {
      ExpandOffers(ps[0], c);
      ChoiceOffers(ps[1..], c);
      if c in ExpandChoice(ps[1..]) {
        var i :| 0 <= i < |ps[1..]| && Offers(ps[1..][i], c);
        assert Offers(ps[i + 1], c);
      }
      forall i | 0 < i < |ps| && Offers(ps[i], c)
        ensures c in ExpandChoice(ps[1..])
      {
        assert Offers(ps[1..][i - 1], c);
      }
    }
  }

  /** The examples of the documentation: `[-a]`, `(-a...)` and `((-a | -b) (-c | -d))`. */
  lemma DocumentedExamples(a: Pattern, b: Pattern, c: Pattern, d: Pattern)
    requires a == Leaf("-a") && b == Leaf("-b") && c == Leaf("-c") && d == Leaf("-d")
    ensures Expand(Optional([a])) == [multiset{"-a"}]
    ensures Expand(OneOrMore([a])) == [multiset{"-a", "-a"}]
    ensures Expand(Required([Either([a, b]), Either([c, d])])) ==
      [multiset{"-a", "-c"}, multiset{"-a", "-d"}, multiset{"-b", "-c"}, multiset{"-b", "-d"}]
  {
    hide Cross, Shift;
    OneLeaf(a);
    assert Expand(OneOrMore([a])) == Cross([multiset{"-a"}], [multiset{"-a"}]);
    OnePair(multiset{"-a"}, multiset{"-a"});
    TwoLeaves(a, b);
    TwoLeaves(c, d);
    var x, y := Either([a, b]), Either([c, d]);
    assert [x, y][1..] == [y] && [y][1..] == [];
    assert ExpandAll([y]) == Expand(y) by { CrossUnitRight(Expand(y)); }
    assert ExpandAll([x, y]) == Cross(Expand(x), Expand(y));
    TwoByTwo(multiset{"-a"}, multiset{"-b"}, multiset{"-c"}, multiset{"-d"});
    assert multiset{"-a"} + multiset{"-a"} == multiset{"-a", "-a"};
    assert multiset{"-a"} + multiset{"-c"} == multiset{"-a", "-c"};
    assert multiset{"-a"} + multiset{"-d"} == multiset{"-a", "-d"};
    assert multiset{"-b"} + multiset{"-c"} == multiset{"-b", "-c"};
    assert multiset{"-b"} + multiset{"-d"} == multiset{"-b", "-d"};
    assert Expand(Required([x, y])) == ExpandAll([x, y]);
  }

  lemma OneLeaf(p: Pattern)
    requires p.Leaf?
    ensures ExpandAll([p]) == [multiset{p.name}]
  {
    assert [p][1..] == [];
    CrossUnitRight([multiset{p.name}]);
  }

  lemma TwoLeaves(p: Pattern, q: Pattern)
    requires p.Leaf? && q.Leaf?
    ensures ExpandChoice([p, q]) == [multiset{p.name}, multiset{q.name}]
  {
    assert [p, q][1..] == [q] && [q][1..] == [];
    assert ExpandChoice([q]) == [multiset{q.name}] + [];
  }

  lemma OnePair(x: Case, y: Case)
    ensures Cross([x], [y]) == [x + y]
  {
    OneCase(x, [y]);
  }

  lemma TwoByTwo(x: Case, y: Case, z: Case, w: Case)
    ensures Cross([x, y], [z, w]) == [x + z, x + w, y + z, y + w]
  {
    OneCase(y, [z, w]);
    assert [x, y][1..] == [y];
  }

  predicate IsParent(p: Pattern) {
    !p.Leaf?
  }

  predicate Leaves(ps: seq<Pattern>) {
    forall p :: p in ps ==> p.Leaf?
  }

  /** Leaves in front can be passed over. */
  lemma {:induction false} PastLeaves(pre: seq<Pattern>, child: Pattern, post: seq<Pattern>)
    requires Leaves(pre)
    ensures ExpandAll(pre + [child] + post) == Cross(Expand(child), ExpandAll(pre + post))
  {
    if pre == [] {
      assert pre + [child] + post == [child] + post && pre + post == post;
    } else {
      var leaf, all := pre[0], pre + [child] + post;
      assert leaf in pre;
      var x := multiset{leaf.name};
      assert all[1..] == pre[1..] + [child] + post && (pre + post)[1..] == pre[1..] + post;
      PastLeaves(pre[1..], child, post);
      OneCase(x, ExpandAll(pre[1..] + [child] + post));
      OneCase(x, ExpandAll(pre[1..] + post));
      CrossShiftRight(x, Expand(child), ExpandAll(pre[1..] + post));
    }
  }

  lemma OneCase(x: Case, b: seq<Case>)
    ensures Cross([x], b) == Shift(x, b)
  {
    assert Cross([x], b) == Shift(x, b) + Cross([], b);
  }

  // ----- The worklist

  /** The cases of all groups. */
  function ExpandGroups(groups: seq<seq<Pattern>>): seq<Case> {
    if groups == [] then [] else ExpandAll(groups[0]) + ExpandGroups(groups[1..])
  }

  lemma {:induction false} ExpandGroupsConcat(g: seq<seq<Pattern>>, h: seq<seq<Pattern>>)
    ensures ExpandGroups(g + h) == ExpandGroups(g) + ExpandGroups(h)
  {
    if g == [] {
      assert g + h == h;
    } else {
      assert (g + h)[1..] == g[1..] + h;
      ExpandGroupsConcat(g[1..], h);
    }
  }

  /** One group for each alternative. */
  function Alternatives(cs: seq<Pattern>, rest: seq<Pattern>): seq<seq<Pattern>> {
    if cs == [] then [] else [[cs[0]] + rest] + Alternatives(cs[1..], rest)
  }

  /** What replaces a group whose first parent is `child`. */
  function Replacement(child: Pattern, rest: seq<Pattern>): seq<seq<Pattern>>
    requires IsParent(child)
  {
    if child.Either? then Alternatives(child.children, rest)
    else if child.OneOrMore? then [child.children + child.children + rest]
    else [child.children + rest]
  }

  lemma OneGroup(g: seq<Pattern>)
    ensures ExpandGroups([g]) == ExpandAll(g)
  {
    assert ExpandGroups([g]) == ExpandAll(g) + ExpandGroups([]);
  }

  lemma {:induction false} AlternativesExpand(cs: seq<Pattern>, rest: seq<Pattern>)
    ensures ExpandGroups(Alternatives(cs, rest)) == Cross(ExpandChoice(cs), ExpandAll(rest))
  {
    if cs != [] {
      AlternativesExpand(cs[1..], rest);
      CrossConcat(Expand(cs[0]), ExpandChoice(cs[1..]), ExpandAll(rest));
      assert ([cs[0]] + rest)[1..] == rest;
    }
  }

  /** Replacing a group keeps its cases. */
  lemma ReplacementExpands(child: Pattern, rest: seq<Pattern>)
    requires IsParent(child)
    ensures ExpandGroups(Replacement(child, rest)) == Cross(Expand(child), ExpandAll(rest))
  {
    var cs := child.children;
    if child.Either? {
      AlternativesExpand(cs, rest);
    } else if child.OneOrMore? {
      OneGroup(cs + cs + rest);
      ExpandAllConcat(cs + cs, rest);
      ExpandAllConcat(cs, cs);
    } else {
      OneGroup(cs + rest);
      ExpandAllConcat(cs, rest);
    }
  }

  // ----- Termination: a weight that every replacement lowers

  function Weight(p: Pattern): nat
    decreases p, 1
  {
    match p
    case Leaf(_) => 1
    case Either(cs) => 1 + Sum(cs)
    case OneOrMore(cs) => 1 + Product(cs) * Product(cs)
    case Required(cs) => 1 + Product(cs)
    case Optional(cs) => 1 + Product(cs)
    case OptionsShortcut(cs) => 1 + Product(cs)
  }

  function Product(ps: seq<Pattern>): nat
    decreases ps, 0
  {
    if ps == [] then 1 else Weight(ps[0]) * Product(ps[1..])
  }

  function Sum(ps: seq<Pattern>): nat
    decreases ps, 0
  {
    if ps == [] then 0 else Weight(ps[0]) + Sum(ps[1..])
  }

  function GroupsWeight(groups: seq<seq<Pattern>>): nat {
    if groups == [] then 0 else Product(groups[0]) + GroupsWeight(groups[1..])
  }

  lemma {:induction false} GroupsWeightConcat(g: seq<seq<Pattern>>, h: seq<seq<Pattern>>)
    ensures GroupsWeight(g + h) == GroupsWeight(g) + GroupsWeight(h)
  {
    if g == [] {
      assert g + h == h;
    } else {
      assert (g + h)[1..] == g[1..] + h;
      GroupsWeightConcat(g[1..], h);
    }
  }

  lemma WeightPositive(p: Pattern)
    ensures Weight(p) >= 1
  {
  }

  lemma {:induction false} ProductPositive(ps: seq<Pattern>)
    ensures Product(ps) >= 1
  {
    if ps != [] {
      WeightPositive(ps[0]);
      ProductPositive(ps[1..]);
      Positive(Weight(ps[0]), Product(ps[1..]));
    }
  }

  lemma Positive(a: nat, b: nat)
    requires a >= 1 && b >= 1
    ensures a * b >= 1
  {
  }

  lemma Associate(a: nat, b: nat, c: nat)
    ensures a * (b * c) == (a * b) * c
  {
  }

  lemma {:induction false} ProductConcat(p: seq<Pattern>, q: seq<Pattern>)
    ensures Product(p + q) == Product(p) * Product(q)
  {
    if p == [] {
      assert p + q == q;
    } else {
      assert (p + q)[1..] == p[1..] + q;
      ProductConcat(p[1..], q);
      Associate(Weight(p[0]), Product(p[1..]), Product(q));
    }
  }

  lemma {:induction false} AlternativesWeight(cs: seq<Pattern>, rest: seq<Pattern>)
    ensures GroupsWeight(Alternatives(cs, rest)) == Sum(cs) * Product(rest)
  {
    if cs != [] {
      AlternativesWeight(cs[1..], rest);
      assert ([cs[0]] + rest)[1..] == rest;
      Distribute(Weight(cs[0]), Sum(cs[1..]), Product(rest));
    }
  }

  lemma Distribute(a: nat, b: nat, c: nat)
    ensures (a + b) * c == a * c + b * c
  {
  }

  lemma OneGroupWeight(g: seq<Pattern>)
    ensures GroupsWeight([g]) == Product(g)
  {
    assert GroupsWeight([g]) == Product(g) + GroupsWeight([]);
  }

  /** The weight of a group around its child. */
  lemma ProductAround(pre: seq<Pattern>, child: Pattern, post: seq<Pattern>)
    ensures Product(pre + [child] + post) == Weight(child) * Product(pre + post)
  {
    ProductConcat(pre + [child], post);
    ProductConcat(pre, [child]);
    ProductConcat(pre, post);
    assert Product([child]) == Weight(child) * Product([]);
    Rearrange(Product(pre), Weight(child), Product(post));
  }

  lemma Rearrange(a: nat, w: nat, c: nat)
    ensures (a * w) * c == w * (a * c)
  {
    assert a * w == w * a;
    Associate(w, a, c);
  }

  /** Replacing a group lowers the weight, although children and rest may be duplicated. */
  lemma ReplacementIsLighter(child: Pattern, rest: seq<Pattern>)
    requires IsParent(child)
    ensures GroupsWeight(Replacement(child, rest)) < Weight(child) * Product(rest)
  {
    var cs, r := child.children, Product(rest);
    ProductPositive(rest);
    if child.Either? {
      AlternativesWeight(cs, rest);
      Distribute(1, Sum(cs), r);
    } else if child.OneOrMore? {
      OneGroupWeight(cs + cs + rest);
      ProductConcat(cs + cs, rest);
      ProductConcat(cs, cs);
      Distribute(1, Product(cs) * Product(cs), r);
    } else {
      OneGroupWeight(cs + rest);
      ProductConcat(cs, rest);
      Distribute(1, Product(cs), r);
    }
  }

  // ----- The code

  /** The first position of a parent among `children`. */
  method FirstParent(children: seq<Pattern>) returns (i: nat)
    ensures i <= |children| && Leaves(children[..i]) && (i < |children| ==> IsParent(children[i]))
  {
    i := 0;
    while i < |children| && !IsParent(children[i])
      invariant i <= |children| && Leaves(children[..i])
    {
      i := i + 1;
    }
  }

  /** The loop over the alternatives of a choice. */
  method AddAlternatives(groups: seq<seq<Pattern>>, cs: seq<Pattern>, rest: seq<Pattern>) returns (r: seq<seq<Pattern>>)
    ensures r == groups + Alternatives(cs, rest)
  {
    r := groups;
    var j := 0;
    while j < |cs|
      invariant 0 <= j <= |cs| && r + Alternatives(cs[j..], rest) == groups + Alternatives(cs, rest)
    {
      assert cs[j..][1..] == cs[j + 1..];
      r := r + [[cs[j]] + rest];
      j := j + 1;
    }
    assert cs[j..] == [];
  }

  /** A choice between cases that are all leaves. */
  predicate SingleChoice(p: Pattern) {
    p.Either? && forall c :: c in p.children ==> c.Required? && Leaves(c.children)
  }

  /** One step of the worklist, for a group with a parent: same cases, less weight. */
  lemma StepKeeps(pre: seq<Pattern>, child: Pattern, post: seq<Pattern>, groups: seq<seq<Pattern>>)
    requires Leaves(pre) && IsParent(child)
    ensures var after := groups + Replacement(child, pre + post);
      && multiset(ExpandGroups(after)) == multiset(ExpandAll(pre + [child] + post)) + multiset(ExpandGroups(groups))
      && GroupsWeight(after) < Product(pre + [child] + post) + GroupsWeight(groups)
  {
    var rest := pre + post;
    PastLeaves(pre, child, post);
    ReplacementExpands(child, rest);
    ExpandGroupsConcat(groups, Replacement(child, rest));
    ProductAround(pre, child, post);
    ReplacementIsLighter(child, rest);
    GroupsWeightConcat(groups, Replacement(child, rest));
  }

  /** The returned choice expands to the collected cases. */
  lemma {:induction false} ChoiceOfGroups(result: seq<seq<Pattern>>, children: seq<Pattern>)
    requires |children| == |result| && forall i :: 0 <= i < |result| ==> children[i] == Required(result[i])
    ensures ExpandChoice(children) == ExpandGroups(result)
  {
    if result != [] { ChoiceOfGroups(result[1..], children[1..]); }
  }

  /** `transform`: a single choice between leaf-only cases that offers, as multisets of leaves, exactly
      the cases of the pattern. */
  method Transform(pattern: Pattern) returns (r: Pattern)
    ensures SingleChoice(r)
    ensures multiset(Expand(r)) == multiset(Expand(pattern))
  {
    hide Expand, ExpandAll, ExpandGroups, Product, GroupsWeight, Leaves;
    var result: seq<seq<Pattern>> := [];
    var groups := [[pattern]];
    TransformBegins(pattern);
    while groups != []
      invariant forall e :: e in result ==> Leaves(e)
      invariant multiset(ExpandGroups(result)) + multiset(ExpandGroups(groups)) == multiset(Expand(pattern))
      decreases GroupsWeight(groups)
    {
      PopGroup(groups);
      var children := groups[0];
      groups := groups[1..];
      var i := FirstParent(children);
      if i < |children| {
        var child := children[i];
        var rest := children[..i] + children[i + 1..];
        assert children == children[..i] + [child] + children[i + 1..];
        StepKeeps(children[..i], child, children[i + 1..], groups);
        if child.Either? {
          groups := AddAlternatives(groups, child.children, rest);
        } else if child.OneOrMore? {
          groups := groups + [child.children + child.children + rest];
        } else {
          groups := groups + [child.children + rest];
        }
      } else {
        assert children[..i] == children;
        CollectKeeps(result, children);
        result := result + [children];
      }
    }
    var cases := seq(|result|, i requires 0 <= i < |result| => Required(result[i]));
    ResultExpands(result, cases);
    r := Either(cases);
  }

  lemma PopGroup(groups: seq<seq<Pattern>>)
    requires groups != []
    ensures ExpandGroups(groups) == ExpandAll(groups[0]) + ExpandGroups(groups[1..])
    ensures GroupsWeight(groups) == Product(groups[0]) + GroupsWeight(groups[1..]) && Product(groups[0]) >= 1
  {
    ProductPositive(groups[0]);
  }

  lemma {:induction false} CrossUnitRight(a: seq<Case>)
    ensures Cross(a, [multiset{}]) == a
  {
    if a != [] {
      CrossUnitRight(a[1..]);
      assert a[0] + multiset{} == a[0];
      assert Shift(a[0], [multiset{}]) == [a[0]];
    }
  }

  lemma TransformBegins(pattern: Pattern)
    ensures ExpandGroups([[pattern]]) == Expand(pattern) && ExpandGroups([]) == []
  {
    OneGroup([pattern]);
    assert ExpandAll([pattern]) == Cross(Expand(pattern), ExpandAll([]));
    CrossUnitRight(Expand(pattern));
  }

  lemma CollectKeeps(result: seq<seq<Pattern>>, children: seq<Pattern>)
    ensures ExpandGroups(result + [children]) == ExpandGroups(result) + ExpandAll(children)
  {
    ExpandGroupsConcat(result, [children]);
    OneGroup(children);
  }

  lemma ResultExpands(result: seq<seq<Pattern>>, cases: seq<Pattern>)
    requires |cases| == |result| && forall i :: 0 <= i < |result| ==> cases[i] == Required(result[i])
    requires forall e :: e in result ==> Leaves(e)
    ensures SingleChoice(Either(cases)) && Expand(Either(cases)) == ExpandGroups(result) && ExpandGroups([]) == []
  {
    hide Leaves;
    ChoiceOfGroups(result, cases);
    forall c | c in cases
      ensures c.Required? && Leaves(c.children)
    {
      var i :| 0 <= i < |cases| && cases[i] == c;
      assert result[i] in result;
    }
  }
}
