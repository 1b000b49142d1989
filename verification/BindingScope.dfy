/** What a policy binding covers, and what --namespace does to it: the offline
    analysis of cmd/vap against the requests that policy and binding match. */
module BindingScope {
  import opened Sequences
  import opened Texts

  // ---------------------------------------------------------- rules and requests

  datatype Scope = ClusterScope | NamespacedScope | OtherScope
  datatype Declared = Undeclared | Declares(scope: Scope)

  /** A resource rule of a policy's matchConstraints or of a binding. */
  datatype Rule = Rule(groups: seq<string>, versions: seq<string>, resources: seq<string>, scope: Declared)

  /** An admission request; `sub` is "" for the resource itself. */
  datatype Request = Request(group: string, version: string, name: string, sub: string)

  /** A request names one group, version, resource and subresource. */
  predicate Concrete(q: Request) {
    q.group != "*" && q.version != "*" && ConcreteResource(q.name, q.sub)
  }

  predicate ConcreteResource(name: string, sub: string) {
    name != "*" && Free(name, '/') && sub != "*"
  }

  /** Whether a resource, by group and name, is cluster-scoped. */
  type World = (string, string) -> bool

  function SplitSubresource(resource: string): (string, string) {
    Cut(resource, '/')
  }

  predicate Admits(value: string, v: string) {
    value == "*" || value == v
  }

  predicate ListAdmits(values: seq<string>, v: string) {
    exists x :: x in values && Admits(x, v)
  }

  /** The rules matcher's reading of one resource entry. */
  predicate ResourceAdmits(pattern: string, name: string, sub: string) {
    var (n, s) := SplitSubresource(pattern);
    Admits(n, name) && Admits(s, sub)
  }

  predicate ResourcesAdmit(patterns: seq<string>, name: string, sub: string) {
    exists p :: p in patterns && ResourceAdmits(p, name, sub)
  }

  predicate RuleMatches(rule: Rule, q: Request) {
    && ListAdmits(rule.groups, q.group)
    && ListAdmits(rule.versions, q.version)
    && ResourcesAdmit(rule.resources, q.name, q.sub)
  }

  /** A declared Cluster or Namespaced scope is read before anything else. */
  predicate ScopeAdmits(declared: Declared, cluster: bool) {
    && (declared == Declares(ClusterScope) ==> cluster)
    && (declared == Declares(NamespacedScope) ==> !cluster)
  }

  predicate PolicyMatches(constraint: Rule, q: Request, world: World) {
    RuleMatches(constraint, q) && ScopeAdmits(constraint.scope, world(q.group, q.name))
  }

  // -------------------------------------------------------------------- overlap

  predicate ValueMatches(a: string, b: string) {
    a == "*" || b == "*" || a == b
  }

  ghost predicate Overlap(a: seq<string>, b: seq<string>) {
    exists x, y :: x in a && y in b && ValueMatches(x, y)
  }

  predicate ResourceOverlap(a: string, b: string) {
    var (an, asub) := SplitSubresource(a);
    var (bn, bsub) := SplitSubresource(b);
    ValueMatches(an, bn) && ValueMatches(asub, bsub)
  }

  ghost predicate ResourceLists(a: seq<string>, b: seq<string>) {
    exists x, y :: x in a && y in b && ResourceOverlap(x, y)
  }

  method ValuesOverlap(a: seq<string>, b: seq<string>) returns (r: bool)
    ensures r <==> Overlap(a, b)
  {
    for i := 0 to |a|
      invariant forall x, y :: x in a[..i] && y in b ==> !ValueMatches(x, y)
    {
      for j := 0 to |b|
        invariant forall y :: y in b[..j] ==> !ValueMatches(a[i], y)
      {
        if ValueMatches(a[i], b[j]) {
          return true;
        }
      }
    }
    return false;
  }

  method ResourcesOverlap(a: seq<string>, b: seq<string>) returns (r: bool)
    ensures r <==> ResourceLists(a, b)
  {
    for i := 0 to |a|
      invariant forall x, y :: x in a[..i] && y in b ==> !ResourceOverlap(x, y)
    {
      for j := 0 to |b|
        invariant forall y :: y in b[..j] ==> !ResourceOverlap(a[i], y)
      {
        if ResourceOverlap(a[i], b[j]) {
          return true;
        }
      }
    }
    return false;
  }

  lemma SharedValue(x: string, y: string) returns (v: string)
    requires ValueMatches(x, y)
    ensures v != "*" && Admits(x, v) && Admits(y, v)
    ensures Free(x, '/') && Free(y, '/') ==> Free(v, '/')
  {
    v := if x != "*" then x else if y != "*" then y else "pods";
  }

  /** Two lists overlap exactly when some value is admitted by both. */
  lemma OverlapIsShared(a: seq<string>, b: seq<string>)
    ensures Overlap(a, b) <==> exists v :: v != "*" && ListAdmits(a, v) && ListAdmits(b, v)
  {
    if x, y :| x in a && y in b && ValueMatches(x, y) {
      var v := SharedValue(x, y);
      assert ListAdmits(a, v) && ListAdmits(b, v);
    }
  }

  lemma SplitNameIsFree(resource: string)
    ensures Free(SplitSubresource(resource).0, '/')
  {
    CutBeforeIsFree(resource, '/');
  }

  lemma ResourceOverlapIsShared(a: string, b: string)
    ensures ResourceOverlap(a, b)
       <==> exists n, s :: ConcreteResource(n, s) && ResourceAdmits(a, n, s) && ResourceAdmits(b, n, s)
  {
    if ResourceOverlap(a, b) {
      SplitNameIsFree(a);
      SplitNameIsFree(b);
      var n := SharedValue(SplitSubresource(a).0, SplitSubresource(b).0);
      var s := SharedValue(SplitSubresource(a).1, SplitSubresource(b).1);
      assert ConcreteResource(n, s) && ResourceAdmits(a, n, s) && ResourceAdmits(b, n, s);
    }
  }

  // ------------------------------------------------------------- classification

  datatype RuleScope = OutsidePolicy | ConvertsToPolicy | MatchesPolicy

  ghost predicate FullOverlap(rule: Rule, c: Rule) {
    && ResourceLists(rule.resources, c.resources)
    && Overlap(rule.groups, c.groups)
    && Overlap(rule.versions, c.versions)
  }

  /** The verdict as a function of the set of constraints: their order and
      repetition do not matter. */
  ghost function Classified(rule: Rule, constraints: set<Rule>): RuleScope {
    if exists c :: c in constraints && FullOverlap(rule, c) then MatchesPolicy
    else if forall c :: c in constraints ==> !ResourceLists(rule.resources, c.resources) then OutsidePolicy
    else ConvertsToPolicy
  }

  method ClassifyResourceRule(rule: Rule, constraints: seq<Rule>) returns (scope: RuleScope)
    ensures scope == Classified(rule, set c | c in constraints)
  {
    ghost var all := set c | c in constraints;
    scope := OutsidePolicy;
    for i := 0 to |constraints|
      invariant !scope.MatchesPolicy?
      invariant forall c :: c in constraints[..i] ==> !FullOverlap(rule, c)
      invariant scope.OutsidePolicy? <==> forall c :: c in constraints[..i] ==> !ResourceLists(rule.resources, c.resources)
    {
      var constraint := constraints[i];
      assert constraint in all;
      assert constraints[..i + 1] == constraints[..i] + [constraint];
      var shared := ResourcesOverlap(rule.resources, constraint.resources);
      if !shared {
        continue;
      }
      var groups := ValuesOverlap(rule.groups, constraint.groups);
      var versions := ValuesOverlap(rule.versions, constraint.versions);
      if groups && versions {
        assert FullOverlap(rule, constraint);
        return MatchesPolicy;
      }
      scope := ConvertsToPolicy;
    }
    assert constraints[..|constraints|] == constraints;
    if scope.ConvertsToPolicy? {
      ghost var c :| c in constraints && ResourceLists(rule.resources, c.resources);
      assert c in all;
    }
  }

  lemma FullOverlapIsRequest(rule: Rule, c: Rule)
    ensures FullOverlap(rule, c) <==> exists q :: Concrete(q) && RuleMatches(rule, q) && RuleMatches(c, q)
  {
    OverlapIsShared(rule.groups, c.groups);
    OverlapIsShared(rule.versions, c.versions);
    if FullOverlap(rule, c) {
      var g :| g != "*" && ListAdmits(rule.groups, g) && ListAdmits(c.groups, g);
      var v :| v != "*" && ListAdmits(rule.versions, v) && ListAdmits(c.versions, v);
      var x, y :| x in rule.resources && y in c.resources && ResourceOverlap(x, y);
      ResourceOverlapIsShared(x, y);
      var n, s :| ConcreteResource(n, s) && ResourceAdmits(x, n, s) && ResourceAdmits(y, n, s);
      var q := Request(g, v, n, s);
      assert Concrete(q) && RuleMatches(rule, q) && RuleMatches(c, q);
    }
    if q :| Concrete(q) && RuleMatches(rule, q) && RuleMatches(c, q) {
      SharedResourceOverlaps(rule.resources, c.resources, q.name, q.sub);
    }
  }

  lemma SharedResourceOverlaps(a: seq<string>, b: seq<string>, n: string, s: string)
    requires ConcreteResource(n, s) && ResourcesAdmit(a, n, s) && ResourcesAdmit(b, n, s)
    ensures ResourceLists(a, b)
  {
    var x :| x in a && ResourceAdmits(x, n, s);
    var y :| y in b && ResourceAdmits(y, n, s);
    assert ResourceOverlap(x, y);
  }

  lemma ResourceListsIsShared(a: seq<string>, b: seq<string>)
    ensures ResourceLists(a, b)
       <==> exists n, s :: ConcreteResource(n, s) && ResourcesAdmit(a, n, s) && ResourcesAdmit(b, n, s)
  {
    if x, y :| x in a && y in b && ResourceOverlap(x, y) {
      ResourceOverlapIsShared(x, y);
      var n, s :| ConcreteResource(n, s) && ResourceAdmits(x, n, s) && ResourceAdmits(y, n, s);
      assert ResourcesAdmit(a, n, s) && ResourcesAdmit(b, n, s);
    }
    if n, s :| ConcreteResource(n, s) && ResourcesAdmit(a, n, s) && ResourcesAdmit(b, n, s) {
      SharedResourceOverlaps(a, b, n, s);
    }
  }

  /** The classification is exact: "matches" exactly when one request is matched
      by the rule and by a constraint, "outside" exactly when no resource is
      named by both at any group and version. */
  lemma ClassificationIsExact(rule: Rule, constraints: set<Rule>)
    ensures Classified(rule, constraints) == MatchesPolicy
       <==> exists c, q :: c in constraints && Concrete(q) && RuleMatches(rule, q) && RuleMatches(c, q)
    ensures Classified(rule, constraints) == OutsidePolicy
       <==> !exists c, n, s :: c in constraints && ConcreteResource(n, s)
              && ResourcesAdmit(rule.resources, n, s) && ResourcesAdmit(c.resources, n, s)
  {
    forall c | c in constraints
      ensures FullOverlap(rule, c) <==> exists q :: Concrete(q) && RuleMatches(rule, q) && RuleMatches(c, q)
      ensures ResourceLists(rule.resources, c.resources)
         <==> exists n, s :: ConcreteResource(n, s) && ResourcesAdmit(rule.resources, n, s) && ResourcesAdmit(c.resources, n, s)
    {
      FullOverlapIsRequest(rule, c);
      ResourceListsIsShared(rule.resources, c.resources);
    }
  }

  // ------------------------------------------------------------------ narrowing

  function NarrowWildcard(value: string, bound: string): string {
    if value == "*" then bound else value
  }

  function NarrowResource(resource: string, bound: string): string {
    var (name, sub) := SplitSubresource(resource);
    var (boundName, boundSub) := SplitSubresource(bound);
    var (n, s) := (NarrowWildcard(name, boundName), NarrowWildcard(sub, boundSub));
    if s == "" then n else n + ['/'] + s
  }

  lemma NarrowSplits(resource: string, bound: string)
    ensures SplitSubresource(NarrowResource(resource, bound))
         == (NarrowWildcard(SplitSubresource(resource).0, SplitSubresource(bound).0),
             NarrowWildcard(SplitSubresource(resource).1, SplitSubresource(bound).1))
  {
    SplitNameIsFree(resource);
    SplitNameIsFree(bound);
    var n := NarrowWildcard(SplitSubresource(resource).0, SplitSubresource(bound).0);
    var s := NarrowWildcard(SplitSubresource(resource).1, SplitSubresource(bound).1);
    CutOfFree(n, '/');
    CutOfJoined(n, '/', s);
  }

  /** The narrowed pattern of two that overlap names exactly what both name. */
  lemma NarrowIsIntersection(resource: string, bound: string, n: string, s: string)
    requires ResourceOverlap(resource, bound) && ConcreteResource(n, s)
    ensures ResourceAdmits(NarrowResource(resource, bound), n, s)
       <==> ResourceAdmits(resource, n, s) && ResourceAdmits(bound, n, s)
  {
    NarrowSplits(resource, bound);
  }

  function NarrowWildcards(values: seq<string>, bound: seq<string>): seq<string> {
    if bound == [] then values else Narrowed(values, bound)
  }

  function Narrowed(values: seq<string>, bound: seq<string>): seq<string> {
    if values == [] then []
    else
      var n := |values| - 1;
      Narrowed(values[..n], bound) + if values[n] == "*" then bound else [values[n]]
  }

  method NarrowAll(values: seq<string>, bound: seq<string>) returns (narrowed: seq<string>)
    ensures narrowed == NarrowWildcards(values, bound)
    ensures forall v | v != "*" ::
      ListAdmits(narrowed, v) <==> v in values || ("*" in values && (bound == [] || ListAdmits(bound, v)))
  {
    forall v | v != "*"
      ensures ListAdmits(NarrowWildcards(values, bound), v)
         <==> v in values || ("*" in values && (bound == [] || ListAdmits(bound, v)))
    {
      NarrowIsExact(values, bound, v);
    }
    if |bound| == 0 {
      return values;
    }
    narrowed := [];
    for i := 0 to |values|
      invariant narrowed == Narrowed(values[..i], bound)
    {
      assert values[..i + 1][..i] == values[..i];
      narrowed := narrowed + if values[i] != "*" then [values[i]] else bound;
    }
    assert values[..|values|] == values;
  }

  lemma {:induction false} NarrowedHas(values: seq<string>, bound: seq<string>, v: string)
    ensures v in Narrowed(values, bound) <==> (v in values && v != "*") || ("*" in values && v in bound)
  {
    if values != [] {
      NarrowedHas(values[..|values| - 1], bound, v);
      assert values == values[..|values| - 1] + [values[|values| - 1]];
    }
  }

  lemma {:induction false} NarrowedAppend(a: seq<string>, b: seq<string>, bound: seq<string>)
    ensures Narrowed(a + b, bound) == Narrowed(a, bound) + Narrowed(b, bound)
    decreases |b|
  {
    if b == [] {
      assert a + b == a;
    } else {
      var n := |b| - 1;
      assert (a + b)[..|a + b| - 1] == a + b[..n] && (a + b)[|a + b| - 1] == b[n];
      NarrowedAppend(a, b[..n], bound);
      var last := if b[n] == "*" then bound else [b[n]];
      assert Narrowed(a + b, bound) == Narrowed(a + b[..n], bound) + last;
      assert Narrowed(b, bound) == Narrowed(b[..n], bound) + last;
    }
  }

  /** Each value stands for itself, a wildcard for the bound, in the order given. */
  lemma NarrowedByParts(before: seq<string>, v: string, after: seq<string>, bound: seq<string>)
    ensures Narrowed(before + [v] + after, bound)
         == Narrowed(before, bound) + (if v == "*" then bound else [v]) + Narrowed(after, bound)
  {
    NarrowedAppend(before + [v], after, bound);
    NarrowedAppend(before, [v], bound);
    var none: seq<string> := [v][..0];
    assert none == [];
  }

  /** A value both lists admit is still admitted after narrowing. */
  lemma NarrowKeeps(values: seq<string>, bound: seq<string>, v: string)
    requires ListAdmits(values, v) && ListAdmits(bound, v)
    ensures ListAdmits(NarrowWildcards(values, bound), v)
  {
    var b :| b in bound && Admits(b, v);
    var x :| x in values && Admits(x, v);
    NarrowedHas(values, bound, x);
    NarrowedHas(values, bound, b);
    assert if x == "*" then b in Narrowed(values, bound) else x in Narrowed(values, bound);
  }

  /** What a narrowed list admits, both ways: the values it names itself, and through
      a wildcard those the bound admits. An empty bound bounds nothing. */
  lemma NarrowIsExact(values: seq<string>, bound: seq<string>, v: string)
    requires v != "*"
    ensures ListAdmits(NarrowWildcards(values, bound), v)
       <==> v in values || ("*" in values && (bound == [] || ListAdmits(bound, v)))
  {
    var narrowed := NarrowWildcards(values, bound);
    if bound != [] {
      NarrowedHas(values, bound, v);
      NarrowedHas(values, bound, "*");
    }
    assert ListAdmits(narrowed, v) <==> v in narrowed || "*" in narrowed by {
      assert Admits("*", v) && Admits(v, v);
    }
    assert ListAdmits(bound, v) <==> v in bound || "*" in bound by {
      assert Admits("*", v) && Admits(v, v);
    }
  }
}
