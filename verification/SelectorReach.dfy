/** What --namespace can and cannot narrow on the surface a binding covers. */
module SelectorReach {
  import opened Sequences
  import opened Texts
  import opened BindingScope

  const NAMESPACES := "namespaces"

  /** The built-in table: the group a plural is served from and whether it is
      cluster-scoped there. */
  datatype Served = Served(group: string, cluster: bool)
  type Table = map<string, Served>

  datatype Known = Unknown | Cluster | Namespaced
  datatype Reach = ReachUnknown | ReachNarrows | ReachAlwaysMatches

  /** The name a resource is looked up under. */
  function LookupName(resource: string): string {
    SplitSubresource(ToLower(TrimSpace(resource))).0
  }

  /** The table's word on a resource at some group it is named at. */
  ghost function ResourceScope(table: Table, groups: seq<string>, resource: string): Known {
    var name := LookupName(resource);
    if name == "" || name == "*" || name !in table || !Overlap(groups, [table[name].group]) then Unknown
    else if table[name].cluster then Cluster else Namespaced
  }

  ghost function ReachOf(table: Table, declared: Declared, groups: seq<string>, resource: string): Reach {
    var name := LookupName(resource);
    if name == NAMESPACES && Overlap(groups, [""]) then ReachNarrows
    else if declared == Declares(ClusterScope) then ReachAlwaysMatches
    else if declared == Declares(NamespacedScope) then ReachNarrows
    else if name == "*" then ReachAlwaysMatches
    else match ResourceScope(table, groups, resource)
         case Unknown => ReachUnknown
         case Namespaced => ReachNarrows
         case Cluster => ReachAlwaysMatches
  }

  method LookupScope(table: Table, groups: seq<string>, resource: string) returns (known: Known)
    ensures known == ResourceScope(table, groups, resource)
  {
    var name := LookupName(resource);
    if name == "" || name == "*" || name !in table {
      return Unknown;
    }
    var served := ValuesOverlap(groups, [table[name].group]);
    if !served {
      return Unknown;
    }
    return if table[name].cluster then Cluster else Namespaced;
  }

  method ResourceSelectorReach(table: Table, declared: Declared, groups: seq<string>, resource: string) returns (reach: Reach)
    ensures reach == ReachOf(table, declared, groups, resource)
  {
    var name := LookupName(resource);
    var core := ValuesOverlap(groups, [""]);
    if name == NAMESPACES && core {
      return ReachNarrows;
    }
    if declared == Declares(ClusterScope) {
      return ReachAlwaysMatches;
    }
    if declared == Declares(NamespacedScope) {
      return ReachNarrows;
    }
    if name == "*" {
      return ReachAlwaysMatches;
    }
    var known := LookupScope(table, groups, resource);
    return match known
           case Unknown => ReachUnknown
           case Namespaced => ReachNarrows
           case Cluster => ReachAlwaysMatches;
  }

  // -------------------------------------------------------------------- coverage

  /** A named group the table contradicts the declared scope at. */
  ghost predicate Contradicted(table: Table, declared: Scope, group: string, resource: string) {
    && group != "*"
    && var known := ResourceScope(table, [group], resource);
       (known == Cluster && declared == NamespacedScope) || (known == Namespaced && declared == ClusterScope)
  }

  ghost function KeptGroups(table: Table, declared: Scope, groups: seq<string>, resource: string): seq<string> {
    if groups == [] then []
    else
      var n := |groups| - 1;
      KeptGroups(table, declared, groups[..n], resource)
      + if Contradicted(table, declared, groups[n], resource) then [] else [groups[n]]
  }

  ghost function ScopedGroups(table: Table, declared: Declared, groups: seq<string>, resource: string): seq<string> {
    if declared == Declares(ClusterScope) || declared == Declares(NamespacedScope)
    then KeptGroups(table, declared.scope, groups, resource)
    else groups
  }

  method DropContradicted(table: Table, declared: Declared, groups: seq<string>, resource: string)
    returns (scoped: seq<string>)
    ensures scoped == ScopedGroups(table, declared, groups, resource)
  {
    if declared != Declares(ClusterScope) && declared != Declares(NamespacedScope) {
      return groups;
    }
    scoped := [];
    for i := 0 to |groups|
      invariant scoped == KeptGroups(table, declared.scope, groups[..i], resource)
    {
      assert groups[..i + 1][..i] == groups[..i];
      if groups[i] != "*" {
        var known := LookupScope(table, [groups[i]], resource);
        if known != Unknown && (known == Cluster) != (declared.scope == ClusterScope) {
          continue;
        }
      }
      scoped := scoped + [groups[i]];
    }
    assert groups[..|groups|] == groups;
  }

  lemma {:induction false} KeptGroupsHas(table: Table, declared: Scope, groups: seq<string>, resource: string, g: string)
    ensures g in KeptGroups(table, declared, groups, resource)
       <==> g in groups && !Contradicted(table, declared, g, resource)
  {
    if groups != [] {
      var n := |groups| - 1;
      KeptGroupsHas(table, declared, groups[..n], resource, g);
      assert groups == groups[..n] + [groups[n]];
    }
  }

  datatype Covered = Covered(groups: seq<string>, versions: seq<string>, resource: string)

  /** One resource of a constraint under one resource of a binding rule. */
  ghost function Intersected(table: Table, c: Rule, resource: string, b: Rule, bound: string): Covered {
    var narrow := NarrowResource(resource, bound);
    Covered(ScopedGroups(table, c.scope, NarrowWildcards(c.groups, b.groups), narrow),
            NarrowWildcards(c.versions, b.versions), narrow)
  }

  ghost function Unbound(table: Table, c: Rule, resource: string): Covered {
    Covered(ScopedGroups(table, c.scope, c.groups, resource), c.versions, resource)
  }

  /** One resource of a binding rule keeps part of the constraint's. */
  ghost predicate CoversBy(table: Table, c: Rule, resource: string, b: Rule, bound: string, cov: Covered) {
    ResourceOverlap(resource, bound) && cov == Intersected(table, c, resource, b, bound) && cov.groups != []
  }

  ghost predicate CoversUnder(table: Table, c: Rule, resource: string, b: Rule, cov: Covered) {
    exists bound :: bound in b.resources && CoversBy(table, c, resource, b, bound, cov)
  }

  /** What a resource of a constraint still covers under the binding's rules. */
  ghost predicate Covers(table: Table, c: Rule, resource: string, rules: seq<Rule>, cov: Covered) {
    if rules == [] then cov.groups != [] && cov == Unbound(table, c, resource)
    else exists b :: b in rules && CoversUnder(table, c, resource, b, cov)
  }

  method BindingCoverage(table: Table, c: Rule, resource: string, rules: seq<Rule>) returns (covered: seq<Covered>)
    ensures forall cov :: cov in covered <==> Covers(table, c, resource, rules, cov)
  {
    if |rules| == 0 {
      var groups := DropContradicted(table, c.scope, c.groups, resource);
      return if groups == [] then [] else [Covered(groups, c.versions, resource)];
    }
    covered := [];
    for i := 0 to |rules|
      invariant forall cov :: cov in covered <==> exists b :: b in rules[..i] && CoversUnder(table, c, resource, b, cov)
    {
      var more := CoverageUnder(table, c, resource, rules[i]);
      assert forall b :: b in rules[..i + 1] <==> b in rules[..i] || b == rules[i];
      covered := covered + more;
    }
    assert rules[..|rules|] == rules;
  }

  /** The inner loop over one binding rule's resources. */
  method CoverageUnder(table: Table, c: Rule, resource: string, b: Rule) returns (covered: seq<Covered>)
    ensures forall cov :: cov in covered <==> CoversUnder(table, c, resource, b, cov)
  {
    covered := [];
    for j := 0 to |b.resources|
      invariant forall cov :: cov in covered <==> exists bound :: bound in b.resources[..j] && CoversBy(table, c, resource, b, bound, cov)
    {
      var bound := b.resources[j];
      assert forall x :: x in b.resources[..j + 1] <==> x in b.resources[..j] || x == bound;
      ghost var before := covered;
      if ResourceOverlap(resource, bound) {
        var groups := NarrowAll(c.groups, b.groups);
        var versions := NarrowAll(c.versions, b.versions);
        var narrow := NarrowResource(resource, bound);
        groups := DropContradicted(table, c.scope, groups, narrow);
        if groups != [] {
          covered := covered + [Covered(groups, versions, narrow)];
        }
      }
      assert forall cov :: cov in covered <==> (cov in before || CoversBy(table, c, resource, b, bound, cov));
    }
    assert b.resources[..|b.resources|] == b.resources;
  }

  // ----------------------------------------------------------------- the verdict

  function Entry(group: string, version: string, resource: string): string {
    group + "/" + version + "/" + resource
  }

  ghost predicate HasEntry(cov: Covered, entry: string) {
    exists g, v :: g in cov.groups && v in cov.versions && entry == Entry(g, v, cov.resource)
  }

  ghost predicate AlwaysMatched(table: Table, c: Rule, cov: Covered) {
    ReachOf(table, c.scope, cov.groups, cov.resource) == ReachAlwaysMatches
  }

  /** A resource of a constraint covers something no selector narrows, listed as
      `entry`. */
  ghost predicate ResourceNames(table: Table, c: Rule, p: string, rules: seq<Rule>, entry: string) {
    exists cov :: Covers(table, c, p, rules, cov) && AlwaysMatched(table, c, cov) && HasEntry(cov, entry)
  }

  /** A resource of a constraint covers something that is narrowed, or may be. */
  ghost predicate ResourceNarrows(table: Table, c: Rule, p: string, rules: seq<Rule>) {
    exists cov :: Covers(table, c, p, rules, cov) && !AlwaysMatched(table, c, cov)
  }

  ghost predicate ConstraintNames(table: Table, c: Rule, ps: seq<string>, rules: seq<Rule>, entry: string) {
    exists p :: p in ps && ResourceNames(table, c, p, rules, entry)
  }

  ghost predicate ConstraintNarrows(table: Table, c: Rule, ps: seq<string>, rules: seq<Rule>) {
    exists p :: p in ps && ResourceNarrows(table, c, p, rules)
  }

  ghost predicate NamesAlwaysMatched(table: Table, constraints: seq<Rule>, rules: seq<Rule>, entry: string) {
    exists c :: c in constraints && ConstraintNames(table, c, c.resources, rules, entry)
  }

  ghost predicate Narrowable(table: Table, constraints: seq<Rule>, rules: seq<Rule>) {
    exists c :: c in constraints && ConstraintNarrows(table, c, c.resources, rules)
  }

  method AddEntries(entries: seq<string>, cov: Covered) returns (r: seq<string>)
    requires Distinct(entries)
    ensures Distinct(r)
    ensures forall e :: e in r <==> (e in entries || HasEntry(cov, e))
  {
    r := entries;
    for i := 0 to |cov.groups|
      invariant Distinct(r)
      invariant forall e :: e in r <==> (e in entries || HasEntry(cov.(groups := cov.groups[..i]), e))
    {
      ghost var before := r;
      var group := cov.groups[i];
      for j := 0 to |cov.versions|
        invariant Distinct(r)
        invariant forall e :: e in r <==> (e in before || HasEntry(Covered([group], cov.versions[..j], cov.resource), e))
      {
        var version := cov.versions[j];
        assert forall v :: v in cov.versions[..j + 1] <==> v in cov.versions[..j] || v == version;
        var entry := Entry(group, version, cov.resource);
        if entry !in r {
          r := r + [entry];
        }
      }
      assert cov.versions[..|cov.versions|] == cov.versions;
      assert forall g :: g in cov.groups[..i + 1] <==> g in cov.groups[..i] || g == group;
    }
    assert cov.groups[..|cov.groups|] == cov.groups;
  }

  /** The innermost loops of resolveNamespaceSelectorReach. */
  method ReachOfResource(table: Table, c: Rule, p: string, rules: seq<Rule>, entries: seq<string>, narrowable: bool)
    returns (r: seq<string>, n: bool)
    requires Distinct(entries)
    ensures Distinct(r)
    ensures forall e :: e in r <==> (e in entries || ResourceNames(table, c, p, rules, e))
    ensures n <==> (narrowable || ResourceNarrows(table, c, p, rules))
  {
    r, n := entries, narrowable;
    var covered := BindingCoverage(table, c, p, rules);
    for k := 0 to |covered|
      invariant Distinct(r)
      invariant forall e :: e in r <==> (e in entries || exists cov :: cov in covered[..k] && AlwaysMatched(table, c, cov) && HasEntry(cov, e))
      invariant n <==> (narrowable || exists cov :: cov in covered[..k] && !AlwaysMatched(table, c, cov))
    {
      assert forall x :: x in covered[..k + 1] <==> x in covered[..k] || x == covered[k];
      var reach := ResourceSelectorReach(table, c.scope, covered[k].groups, covered[k].resource);
      assert reach == ReachAlwaysMatches <==> AlwaysMatched(table, c, covered[k]);
      assert covered[k] in covered[..k + 1];
      if reach != ReachAlwaysMatches {
        n := true;
      } else {
        r := AddEntries(r, covered[k]);
      }
    }
    assert covered[..|covered|] == covered;
  }

  method ReachOfConstraint(table: Table, c: Rule, rules: seq<Rule>, entries: seq<string>, narrowable: bool)
    returns (r: seq<string>, n: bool)
    requires Distinct(entries)
    ensures Distinct(r)
    ensures forall e :: e in r <==> (e in entries || ConstraintNames(table, c, c.resources, rules, e))
    ensures n <==> (narrowable || ConstraintNarrows(table, c, c.resources, rules))
  {
    r, n := entries, narrowable;
    for j := 0 to |c.resources|
      invariant Distinct(r)
      invariant forall e :: e in r <==> (e in entries || ConstraintNames(table, c, c.resources[..j], rules, e))
      invariant n <==> (narrowable || ConstraintNarrows(table, c, c.resources[..j], rules))
    {
      assert forall x :: x in c.resources[..j + 1] <==> x in c.resources[..j] || x == c.resources[j];
      r, n := ReachOfResource(table, c, c.resources[j], rules, r, n);
    }
    assert c.resources[..|c.resources|] == c.resources;
  }

  /** resolveNamespaceSelectorReach: every entry that is always matched, each
      once, and whether anything is narrowable. */
  method ResolveReach(table: Table, constraints: seq<Rule>, rules: seq<Rule>) returns (entries: seq<string>, narrowable: bool)
    ensures Distinct(entries)
    ensures forall e :: e in entries <==> NamesAlwaysMatched(table, constraints, rules, e)
    ensures narrowable <==> Narrowable(table, constraints, rules)
  {
    entries, narrowable := [], false;
    for i := 0 to |constraints|
      invariant Distinct(entries)
      invariant forall e :: e in entries <==> NamesAlwaysMatched(table, constraints[..i], rules, e)
      invariant narrowable <==> Narrowable(table, constraints[..i], rules)
    {
      assert forall x :: x in constraints[..i + 1] <==> x in constraints[..i] || x == constraints[i];
      entries, narrowable := ReachOfConstraint(table, constraints[i], rules, entries, narrowable);
    }
    assert constraints[..|constraints|] == constraints;
  }

  datatype Outcome = Silent | Warned(entries: seq<string>) | RefusedFlag(entries: seq<string>)

  /** The end of checkNamespaceSelectorScope. */
  method CheckNamespaceSelectorScope(table: Table, namespaces: seq<string>, constraints: seq<Rule>, rules: seq<Rule>)
    returns (outcome: Outcome)
    ensures outcome.Silent? <==> namespaces == [] || constraints == [] || forall e :: !NamesAlwaysMatched(table, constraints, rules, e)
    ensures outcome.RefusedFlag? ==> !Narrowable(table, constraints, rules)
    ensures outcome.Warned? ==> Narrowable(table, constraints, rules)
    ensures !outcome.Silent? ==> forall e :: e in outcome.entries <==> NamesAlwaysMatched(table, constraints, rules, e)
  {
    if |namespaces| == 0 || |constraints| == 0 {
      return Silent;
    }
    var entries, narrowable := ResolveReach(table, constraints, rules);
    if |entries| == 0 {
      return Silent;
    }
    assert entries[0] in entries;
    return if !narrowable then RefusedFlag(entries) else Warned(entries);
  }

  // -------------------------------------------------- the verdict and the requests

  /** The world's scopes are the table's wherever the table speaks. */
  ghost predicate Agrees(world: World, table: Table) {
    forall name :: name in table ==> table[name].group != "*" && world(table[name].group, name) == table[name].cluster
  }

  /** Resource names in requests are lower case and without blanks at the ends,
      even with a subresource behind them. */
  predicate PlainName(name: string) {
    && name != "" && !IsSpaceChar(name[0]) && !IsSpaceChar(name[|name| - 1])
    && ToLower(name) == name
  }

  /** A Namespace object, which a namespaceSelector narrows by its own labels. */
  predicate IsNamespaceObject(q: Request) {
    q.group == "" && q.name == NAMESPACES
  }

  /** Matched by the policy through `c` and by the binding. */
  ghost predicate DirectlyMatched(c: Rule, rules: seq<Rule>, q: Request, world: World) {
    && PolicyMatches(c, q, world)
    && (rules == [] || exists b :: b in rules && RuleMatches(b, q))
  }

  lemma {:induction false} TrimRightStops(s: string, n: nat)
    requires 0 < n <= |s| && !IsSpaceChar(s[n - 1])
    ensures var t := TrimRight(IsSpaceChar, s); n <= |t| <= |s| && t == s[..|t|]
  {
    if IsSpaceChar(s[|s| - 1]) {
      assert n < |s|;
      TrimRightStops(s[..|s| - 1], n);
    } else {
      assert s[..|s|] == s;
    }
  }

  /** A resource entry that names a plain name is looked up under it. */
  lemma LookupOfPlainName(resource: string, name: string)
    requires PlainName(name) || name == "*"
    requires SplitSubresource(resource).0 == name
    ensures LookupName(resource) == name
  {
    CutShape(resource);
    var trimmed := TrimSpace(resource);
    assert resource[..|name|] == name;
    assert resource[0] == name[0] && !IsSpaceChar(resource[0]);
    assert TrimLeft(IsSpaceChar, resource) == resource;
    assert resource[|name| - 1] == name[|name| - 1] && !IsSpaceChar(name[|name| - 1]);
    TrimRightStops(resource, |name|);
    SplitNameIsFree(resource);
    var low := ToLower(trimmed);
    assert ToLower(name) == name;
    assert low[..|name|] == name by {
      forall i | 0 <= i < |name| ensures low[i] == name[i] {
        assert trimmed[i] == resource[i] == name[i];
        assert ToLower(name)[i] == LowerChar(name[i]);
      }
    }
    if |trimmed| == |name| {
      assert low == name;
      CutOfFree(low, '/');
    } else {
      assert |resource| > |name|;
      assert trimmed[|name|] == resource[|name|];
      assert low == name + ['/'] + low[|name| + 1..];
      CutOfJoined(name, '/', low[|name| + 1..]);
    }
  }

  lemma {:induction false} CutShape(s: string)
    ensures var name := SplitSubresource(s).0;
            |name| <= |s| && s[..|name|] == name && (|s| > |name| ==> s[|name|] == '/')
  {
    if s != [] && s[0] != '/' {
      CutShape(s[1..]);
    }
  }

  // ------------------------------------------------ what the table's word is worth

  /** Groups in the table are groups, not wildcards. */
  predicate Grounded(table: Table) {
    forall name :: name in table ==> table[name].group != "*"
  }

  /** The table's scopes, and `cluster` wherever it has none. */
  function WorldOf(table: Table, cluster: bool): World {
    (group, name) => if name in table && table[name].group == group then table[name].cluster else cluster
  }

  lemma WorldOfAgrees(table: Table, cluster: bool)
    requires Grounded(table)
    ensures Agrees(WorldOf(table, cluster), table)
  {
  }

  /** Asked for one named group, the table's word is what all worlds it describes
      have in common. */
  lemma LookupIsExact(table: Table, group: string, resource: string, name: string)
    requires Grounded(table) && group != "*" && PlainName(name) && name != "*" && SplitSubresource(resource).0 == name
    ensures ResourceScope(table, [group], resource) == Cluster
       <==> forall world | Agrees(world, table) :: world(group, name)
    ensures ResourceScope(table, [group], resource) == Namespaced
       <==> forall world | Agrees(world, table) :: !world(group, name)
  {
    LookupOfPlainName(resource, name);
    WorldOfAgrees(table, true);
    WorldOfAgrees(table, false);
    assert !WorldOf(table, false)(group, name) || (name in table && table[name].group == group);
    assert WorldOf(table, true)(group, name) || (name in table && table[name].group == group);
    assert Overlap([group], [group]) by { assert ValueMatches(group, group) && group in [group]; }
  }

  /** The selector decides about the request: it lives in a namespace or is a
      Namespace object. */
  predicate SelectorDecides(q: Request, world: World) {
    !world(q.group, q.name) || IsNamespaceObject(q)
  }

  /** A world in which a constraint of the declared scope can match the request. */
  ghost predicate Possible(world: World, table: Table, declared: Declared, q: Request) {
    Agrees(world, table) && ScopeAdmits(declared, world(q.group, q.name))
  }

  // For a request directly matched by the policy through entry `p` of `c` and by
  // the binding through entry `bound` of `b`.

  /** A constraint that admits the request's scope is not dropped at its group. */
  lemma MatchedGroupIsKept(table: Table, world: World, c: Rule, groups: seq<string>, resource: string, q: Request)
    requires Agrees(world, table) && Concrete(q) && PlainName(q.name)
    requires ListAdmits(groups, q.group) && ScopeAdmits(c.scope, world(q.group, q.name))
    requires SplitSubresource(resource).0 == q.name || SplitSubresource(resource).0 == "*"
    ensures ListAdmits(ScopedGroups(table, c.scope, groups, resource), q.group)
  {
    var g :| g in groups && Admits(g, q.group);
    var name := SplitSubresource(resource).0;
    LookupOfPlainName(resource, name);
    if c.scope == Declares(ClusterScope) || c.scope == Declares(NamespacedScope) {
      KeptGroupsHas(table, c.scope.scope, groups, resource, g);
      if g != "*" && name == q.name && name in table && Overlap([g], [table[name].group]) {
        assert table[name].group == g == q.group;
      }
      assert g in ScopedGroups(table, c.scope, groups, resource);
    }
  }

  /** The request lies on the part `cov` of what entry `p` of `c` covers. */
  ghost predicate LiesOn(table: Table, c: Rule, rules: seq<Rule>, q: Request, p: string, cov: Covered) {
    && p in c.resources && Covers(table, c, p, rules, cov)
    && ListAdmits(cov.groups, q.group) && ListAdmits(cov.versions, q.version)
    && ResourceAdmits(cov.resource, q.name, q.sub)
  }

  /** The part of the surface a directly matched request falls on. */
  lemma SurfaceOfRequest(table: Table, world: World, c: Rule, rules: seq<Rule>, q: Request) returns (p: string, cov: Covered)
    requires Agrees(world, table) && Concrete(q) && PlainName(q.name)
    requires DirectlyMatched(c, rules, q, world)
    ensures LiesOn(table, c, rules, q, p, cov)
  {
    p :| p in c.resources && ResourceAdmits(p, q.name, q.sub);
    if rules == [] {
      cov := Unbound(table, c, p);
      MatchedGroupIsKept(table, world, c, c.groups, p, q);
    } else {
      var b :| b in rules && RuleMatches(b, q);
      var bound :| bound in b.resources && ResourceAdmits(bound, q.name, q.sub);
      cov := Intersected(table, c, p, b, bound);
      assert ResourceOverlap(p, bound);
      NarrowIsIntersection(p, bound, q.name, q.sub);
      NarrowKeeps(c.groups, b.groups, q.group);
      NarrowKeeps(c.versions, b.versions, q.version);
      MatchedGroupIsKept(table, world, c, NarrowWildcards(c.groups, b.groups), cov.resource, q);
      assert CoversBy(table, c, p, b, bound, cov);
      assert CoversUnder(table, c, p, b, cov);
    }
  }

  /** The scope of the request is a settled matter: the constraint declares it
      Cluster, or the table serves the resource at the request's group. */
  predicate ScopeIsFixed(table: Table, c: Rule, q: Request) {
    c.scope == Declares(ClusterScope) || (q.name in table && table[q.name].group == q.group)
  }

  /** The analysis reads the part as the core Namespace resource. */
  ghost predicate TakenForCore(cov: Covered) {
    SplitSubresource(cov.resource).0 == NAMESPACES && Overlap(cov.groups, [""])
  }

  /** A cluster-scoped request whose scope is fixed falls on a part the analysis
      calls always matched, exactly unless that part is taken for the core
      Namespace resource. */
  lemma ClusterRequestIsSeen(table: Table, world: World, c: Rule, q: Request, cov: Covered)
    requires Agrees(world, table) && Concrete(q) && PlainName(q.name)
    requires ScopeAdmits(c.scope, world(q.group, q.name)) && world(q.group, q.name)
    requires ScopeIsFixed(table, c, q)
    requires ListAdmits(cov.groups, q.group) && ResourceAdmits(cov.resource, q.name, q.sub)
    ensures AlwaysMatched(table, c, cov) <==> !TakenForCore(cov)
  {
    var name := SplitSubresource(cov.resource).0;
    LookupOfPlainName(cov.resource, name);
    if name == q.name && q.name in table && table[q.name].group == q.group {
      var g :| g in cov.groups && Admits(g, q.group);
      assert Overlap(cov.groups, [table[name].group]) by {
        assert ValueMatches(g, q.group) && q.group in [table[name].group];
      }
    }
  }

  /** A part that takes in the request and is not read as the core Namespace
      resource. */
  ghost predicate SeenPart(table: Table, c: Rule, rules: seq<Rule>, q: Request, p: string, cov: Covered) {
    LiesOn(table, c, rules, q, p, cov) && !TakenForCore(cov)
  }

  /** The message names a part that takes in the request. */
  ghost predicate NamedPart(table: Table, c: Rule, rules: seq<Rule>, q: Request, p: string, cov: Covered) {
    LiesOn(table, c, rules, q, p, cov) && AlwaysMatched(table, c, cov)
  }

  /** Exactly which of these requests the verdict accounts for: a directly matched
      cluster-scoped request of fixed scope lies on a named part if and only if it
      lies on one not read as the core Namespace resource. */
  lemma RequestIsNamed(table: Table, world: World, c: Rule, rules: seq<Rule>, q: Request)
    requires Agrees(world, table) && Concrete(q) && PlainName(q.name)
    requires DirectlyMatched(c, rules, q, world) && world(q.group, q.name) && ScopeIsFixed(table, c, q)
    ensures (exists p, cov :: NamedPart(table, c, rules, q, p, cov)) <==> (exists p, cov :: SeenPart(table, c, rules, q, p, cov))
  {
    if p, cov :| NamedPart(table, c, rules, q, p, cov) {
      ClusterRequestIsSeen(table, world, c, q, cov);
      assert SeenPart(table, c, rules, q, p, cov);
    }
    if p, cov :| SeenPart(table, c, rules, q, p, cov) {
      ClusterRequestIsSeen(table, world, c, q, cov);
      assert NamedPart(table, c, rules, q, p, cov);
    }
  }

  /** What the verdict on one resource at one named group means, where the table
      does not contradict the declared scope: "always matched" if the selector
      decides about the resource in no world in which it is matched, "narrows" if
      it decides in all of them, and "unknown" if it depends on the world. */
  lemma ReachIsExact(table: Table, declared: Declared, q: Request, resource: string)
    requires Grounded(table) && Concrete(q) && PlainName(q.name) && SplitSubresource(resource).0 == q.name
    requires exists world :: Possible(world, table, declared, q)
    ensures ReachOf(table, declared, [q.group], resource) == ReachAlwaysMatches
       <==> forall world | Possible(world, table, declared, q) :: !SelectorDecides(q, world)
    ensures ReachOf(table, declared, [q.group], resource) == ReachNarrows
       <==> forall world | Possible(world, table, declared, q) :: SelectorDecides(q, world)
  {
    LookupOfPlainName(resource, q.name);
    WorldOfAgrees(table, true);
    WorldOfAgrees(table, false);
    assert Overlap([q.group], [""]) <==> q.group == "" by {
      assert "" in [""] && q.group in [q.group] && ValueMatches("", "");
    }
    LookupIsExact(table, q.group, resource, q.name);
    var some :| Possible(some, table, declared, q);
    var yes, no := WorldOf(table, true), WorldOf(table, false);
    assert ScopeAdmits(declared, yes(q.group, q.name)) ==> Possible(yes, table, declared, q);
    assert ScopeAdmits(declared, no(q.group, q.name)) ==> Possible(no, table, declared, q);
    assert some(q.group, q.name) ==> yes(q.group, q.name);
    assert !some(q.group, q.name) ==> !no(q.group, q.name);
  }

  /** What the verdict on a bare wildcard means: it narrows only where the declared
      scope is Namespaced, and then the selector decides about all that is matched;
      declared Cluster, it decides about Namespace objects alone. */
  lemma WildcardReach(table: Table, declared: Declared, groups: seq<string>, resource: string)
    requires SplitSubresource(resource).0 == "*"
    ensures ReachOf(table, declared, groups, resource) == if declared == Declares(NamespacedScope) then ReachNarrows else ReachAlwaysMatches
    ensures declared == Declares(NamespacedScope) ==> forall q, world | Possible(world, table, declared, q) :: SelectorDecides(q, world)
    ensures declared == Declares(ClusterScope) ==>
      forall q, world | Possible(world, table, declared, q) :: SelectorDecides(q, world) <==> IsNamespaceObject(q)
  {
    LookupOfPlainName(resource, "*");
  }

  /** A named part is in the message. */
  lemma NamedPartHasEntry(table: Table, constraints: seq<Rule>, c: Rule, rules: seq<Rule>, q: Request, p: string, cov: Covered)
    requires c in constraints && NamedPart(table, c, rules, q, p, cov)
    ensures exists e :: NamesAlwaysMatched(table, constraints, rules, e)
  {
    var g :| g in cov.groups && Admits(g, q.group);
    var v :| v in cov.versions && Admits(v, q.version);
    var e := Entry(g, v, cov.resource);
    assert HasEntry(cov, e);
    assert ResourceNames(table, c, p, rules, e);
    assert ConstraintNames(table, c, c.resources, rules, e);
    assert NamesAlwaysMatched(table, constraints, rules, e);
  }

  /** Never silent: a cluster-scoped request with a fixed scope, directly matched
      by policy and binding, makes --namespace warn or refuse, whatever else the
      rules cover. For a resource called "namespaces" this takes a part of the
      surface that is not read as the core resource. */
  lemma NeverSilent(table: Table, world: World, constraints: seq<Rule>, rules: seq<Rule>, c: Rule, q: Request)
    requires Agrees(world, table) && Concrete(q) && PlainName(q.name)
    requires c in constraints && DirectlyMatched(c, rules, q, world)
    requires world(q.group, q.name) && ScopeIsFixed(table, c, q)
    requires q.name == NAMESPACES ==> exists p, cov :: SeenPart(table, c, rules, q, p, cov)
    ensures exists e :: NamesAlwaysMatched(table, constraints, rules, e)
  {
    var p, cov := SurfaceOfRequest(table, world, c, rules, q);
    if q.name == NAMESPACES {
      p, cov :| SeenPart(table, c, rules, q, p, cov);
    }
    ClusterRequestIsSeen(table, world, c, q, cov);
    NamedPartHasEntry(table, constraints, c, rules, q, p, cov);
  }

  /** That part is there whenever the constraint names its groups and the core
      group is not among them. */
  lemma ForeignGroupsAreSeen(table: Table, world: World, c: Rule, rules: seq<Rule>, q: Request)
    requires Agrees(world, table) && Concrete(q) && PlainName(q.name)
    requires DirectlyMatched(c, rules, q, world) && !Overlap(c.groups, [""])
    ensures exists p, cov :: SeenPart(table, c, rules, q, p, cov)
  {
    var p, cov := SurfaceOfRequest(table, world, c, rules, q);
    assert "" in [""];
    forall g | g in cov.groups ensures g in c.groups {
      CoveredGroupsAreNarrowed(table, c, rules, p, cov, g);
    }
    assert SeenPart(table, c, rules, q, p, cov);
  }

  lemma CoveredGroupsAreNarrowed(table: Table, c: Rule, rules: seq<Rule>, p: string, cov: Covered, g: string)
    requires Covers(table, c, p, rules, cov) && g in cov.groups && !Overlap(c.groups, [""])
    ensures g in c.groups
  {
    assert "" in [""] && "*" !in c.groups by {
      assert "*" in c.groups ==> ValueMatches("*", "");
    }
    if rules == [] {
      ScopedGroupsAreGroups(table, c.scope, c.groups, p, g);
    } else {
      var b :| b in rules && CoversUnder(table, c, p, b, cov);
      var bound :| bound in b.resources && CoversBy(table, c, p, b, bound, cov);
      ScopedGroupsAreGroups(table, c.scope, NarrowWildcards(c.groups, b.groups), cov.resource, g);
      NarrowedHas(c.groups, b.groups, g);
    }
  }

  lemma ScopedGroupsAreGroups(table: Table, declared: Declared, groups: seq<string>, resource: string, g: string)
    requires g in ScopedGroups(table, declared, groups, resource)
    ensures g in groups
  {
    if declared == Declares(ClusterScope) || declared == Declares(NamespacedScope) {
      KeptGroupsHas(table, declared.scope, groups, resource, g);
    }
  }

  /** A part that no core resource is on, with something to name. */
  ghost predicate ClearPart(table: Table, c: Rule, rules: seq<Rule>, p: string, cov: Covered) {
    p in c.resources && Covers(table, c, p, rules, cov) && cov.versions != [] && !Overlap(cov.groups, [""])
  }

  /** The verdict on a policy over resources called "namespaces", both ways: they
      are named exactly when the scope is declared Cluster and some part of the
      surface is clear of the core group. */
  lemma NamespacesAreNamedIff(table: Table, c: Rule, rules: seq<Rule>, name: string)
    requires name == NAMESPACES && forall p :: p in c.resources ==> SplitSubresource(p).0 == name
    requires name in table ==> table[name].group == ""
    ensures (exists e :: NamesAlwaysMatched(table, [c], rules, e))
       <==> c.scope == Declares(ClusterScope) && exists p, cov :: ClearPart(table, c, rules, p, cov)
  {
    if e :| NamesAlwaysMatched(table, [c], rules, e) {
      var p :| p in c.resources && ResourceNames(table, c, p, rules, e);
      var cov :| Covers(table, c, p, rules, cov) && AlwaysMatched(table, c, cov) && HasEntry(cov, e);
      NamespacesPart(table, c, rules, p, cov, name);
      assert ClearPart(table, c, rules, p, cov);
    }
    if c.scope == Declares(ClusterScope) {
      if p, cov :| ClearPart(table, c, rules, p, cov) {
        NamespacesPart(table, c, rules, p, cov, name);
        PartHasEntry(table, c, rules, p, cov);
      }
    }
  }

  lemma PartHasEntry(table: Table, c: Rule, rules: seq<Rule>, p: string, cov: Covered)
    requires p in c.resources && Covers(table, c, p, rules, cov) && AlwaysMatched(table, c, cov)
    requires cov.groups != [] && cov.versions != []
    ensures exists e :: NamesAlwaysMatched(table, [c], rules, e)
  {
    var e := Entry(cov.groups[0], cov.versions[0], cov.resource);
    assert HasEntry(cov, e);
    assert ResourceNames(table, c, p, rules, e);
    assert c in [c] && ConstraintNames(table, c, c.resources, rules, e);
    assert NamesAlwaysMatched(table, [c], rules, e);
  }

  /** Every part of what a "namespaces" entry covers is called that. */
  lemma NamespacesPart(table: Table, c: Rule, rules: seq<Rule>, p: string, cov: Covered, name: string)
    requires name == NAMESPACES && SplitSubresource(p).0 == name && Covers(table, c, p, rules, cov)
    requires name in table ==> table[name].group == ""
    ensures AlwaysMatched(table, c, cov) <==> c.scope == Declares(ClusterScope) && !Overlap(cov.groups, [""])
    ensures cov.groups != []
  {
    if rules != [] {
      PartKeepsName(table, c, rules, p, cov, name);
    }
    NamespacesIsPlain(name);
    LookupOfPlainName(cov.resource, name);
  }

  lemma PartKeepsName(table: Table, c: Rule, rules: seq<Rule>, p: string, cov: Covered, name: string)
    requires rules != [] && SplitSubresource(p).0 == name != "*" && Covers(table, c, p, rules, cov)
    ensures SplitSubresource(cov.resource).0 == name && cov.groups != []
  {
    var b :| b in rules && CoversUnder(table, c, p, b, cov);
    var bound :| bound in b.resources && CoversBy(table, c, p, b, bound, cov);
    NarrowSplits(p, bound);
  }

  /** A part of the surface admits no group that only one side names: each is named
      by the constraint, or admitted by a binding rule through the constraint's
      wildcard. Versions are exactly those, and resources exactly the ones both name. */
  lemma CoveredIsBounded(table: Table, c: Rule, p: string, rules: seq<Rule>, cov: Covered) returns (b: Rule, bound: string)
    requires rules != [] && Covers(table, c, p, rules, cov)
    ensures b in rules && bound in b.resources
    ensures forall g | g != "*" && ListAdmits(cov.groups, g) ::
      g in c.groups || ("*" in c.groups && (b.groups == [] || ListAdmits(b.groups, g)))
    ensures forall v | v != "*" ::
      ListAdmits(cov.versions, v) <==> v in c.versions || ("*" in c.versions && (b.versions == [] || ListAdmits(b.versions, v)))
    ensures forall n, s | ConcreteResource(n, s) ::
      ResourceAdmits(cov.resource, n, s) <==> ResourceAdmits(p, n, s) && ResourceAdmits(bound, n, s)
  {
    b :| b in rules && CoversUnder(table, c, p, b, cov);
    bound :| bound in b.resources && CoversBy(table, c, p, b, bound, cov);
    forall g | g != "*" && ListAdmits(cov.groups, g)
      ensures g in c.groups || ("*" in c.groups && (b.groups == [] || ListAdmits(b.groups, g)))
    {
      ScopedAdmitsLess(table, c.scope, NarrowWildcards(c.groups, b.groups), cov.resource, g);
      NarrowIsExact(c.groups, b.groups, g);
    }
    forall v | v != "*"
      ensures ListAdmits(cov.versions, v) <==> v in c.versions || ("*" in c.versions && (b.versions == [] || ListAdmits(b.versions, v)))
    {
      NarrowIsExact(c.versions, b.versions, v);
    }
    forall n, s | ConcreteResource(n, s)
      ensures ResourceAdmits(cov.resource, n, s) <==> ResourceAdmits(p, n, s) && ResourceAdmits(bound, n, s)
    {
      NarrowIsIntersection(p, bound, n, s);
    }
  }

  lemma ScopedAdmitsLess(table: Table, declared: Declared, groups: seq<string>, resource: string, g: string)
    requires ListAdmits(ScopedGroups(table, declared, groups, resource), g)
    ensures ListAdmits(groups, g)
  {
    var x :| x in ScopedGroups(table, declared, groups, resource) && Admits(x, g);
    ScopedGroupsAreGroups(table, declared, groups, resource, x);
  }

  /** And no part keeps a named group at which the table has the resource in another
      scope than the constraint declares. */
  lemma CoveredGroupsAgree(table: Table, c: Rule, p: string, rules: seq<Rule>, cov: Covered, g: string, name: string)
    requires Covers(table, c, p, rules, cov) && g in cov.groups && g != "*"
    requires PlainName(name) && name != "*" && SplitSubresource(cov.resource).0 == name
    requires name in table && table[name].group == g
    ensures ScopeAdmits(c.scope, table[name].cluster)
  {
    LookupOfPlainName(cov.resource, name);
    assert ValueMatches(g, g) && Overlap([g], [g]);
    var groups := c.groups;
    if rules != [] {
      var b :| b in rules && CoversUnder(table, c, p, b, cov);
      var bound :| bound in b.resources && CoversBy(table, c, p, b, bound, cov);
      groups := NarrowWildcards(c.groups, b.groups);
    }
    if c.scope == Declares(ClusterScope) || c.scope == Declares(NamespacedScope) {
      KeptGroupsHas(table, c.scope.scope, groups, cov.resource, g);
    }
  }

  /** So a policy over everything cluster-scoped says nothing about a namespaced
      built-in resource that a binding rule names at its own group: --namespace stays
      silent, whatever the versions. */
  lemma BoundGroupIsSilent(table: Table, name: string, group: string, versions: seq<string>, e: string)
    requires PlainName(name) && name != "*" && Free(name, '/') && group != "*"
    requires name in table && table[name] == Served(group, false)
    ensures var c, b := Rule(["*"], ["*"], ["*"], Declares(ClusterScope)), Rule([group], versions, [name], Undeclared);
            !NamesAlwaysMatched(table, [c], [b], e)
  {
    var c, b := Rule(["*"], ["*"], ["*"], Declares(ClusterScope)), Rule([group], versions, [name], Undeclared);
    CutOfFree("*", '/');
    CutOfFree(name, '/');
    forall cov | Covers(table, c, "*", [b], cov) ensures false {
      assert CoversUnder(table, c, "*", b, cov);
      assert CoversBy(table, c, "*", b, name, cov);
      assert cov.resource == name;
      NarrowedHas(c.groups, b.groups, cov.groups[0]);
      ScopedGroupsAreGroups(table, c.scope, NarrowWildcards(c.groups, b.groups), name, cov.groups[0]);
      CoveredGroupsAgree(table, c, "*", [b], cov, group, name);
    }
  }

  /** Resources are looked up without regard to case and blanks around them. */
  lemma LookupFolds(before: string, word: string, after: string, name: string)
    requires AllBlank(IsSpaceChar, before) && AllBlank(IsSpaceChar, after) && IsTrim(IsSpaceChar, word)
    requires SameLetters(word, name) && HasNoUpper(name) && Free(name, '/')
    ensures LookupName(before + word + after) == name
  {
    TrimDrops(IsSpaceChar, before, word, after);
    LowerIsExact(word, name);
    CutOfFree(name, '/');
  }

  /** An entry names its part by group, version and resource. */
  lemma EntryNamesPart(group: string, version: string, resource: string)
    requires Free(group, '/') && Free(version, '/')
    ensures Cut(Entry(group, version, resource), '/').0 == group
    ensures Cut(Cut(Entry(group, version, resource), '/').1, '/') == (version, resource)
  {
    assert Entry(group, version, resource) == group + ['/'] + (version + ['/'] + resource);
    CutOfJoined(group, '/', version + ['/'] + resource);
    CutOfJoined(version, '/', resource);
  }

  lemma NamespacesIsPlain(name: string)
    requires name == NAMESPACES
    ensures PlainName(name) && Free(name, '/') && name != "*"
  {
  }

  /** A rule over every group's resource of one name, declared Cluster. */
  function EveryGroups(name: string): Rule {
    Rule(["*"], ["*"], [name], Declares(ClusterScope))
  }

  /** It covers the cluster-scoped custom resources of that name. */
  lemma CustomResourcesAreMatched(world: World, group: string, version: string, name: string)
    requires group != "*" && version != "*" && name != "*" && Free(name, '/') && world(group, name)
    ensures var q := Request(group, version, name, "");
            Concrete(q) && DirectlyMatched(EveryGroups(name), [], q, world)
  {
    CutOfFree(name, '/');
    var c := EveryGroups(name);
    assert "*" in c.groups && Admits("*", group);
    assert "*" in c.versions && Admits("*", version);
    assert name in c.resources && ResourceAdmits(name, name, "");
  }

  /** Yet when the name is "namespaces" the analysis takes it for the core
      resource and stays silent about the custom ones. */
  lemma ForeignNamespacesAreSilent(table: Table, name: string, e: string)
    requires name == NAMESPACES
    requires name in table && table[name] == Served("", true)
    ensures !NamesAlwaysMatched(table, [EveryGroups(name)], [], e)
  {
    NamespacesIsPlain(name);
    CutOfFree(name, '/');
    LookupOfPlainName(name, name);
    var c := EveryGroups(name);
    var cov := Unbound(table, c, name);
    KeptGroupsHas(table, ClusterScope, c.groups, name, "*");
    TakenForCoreNarrows(table, c, cov, name);
  }

  lemma TakenForCoreNarrows(table: Table, c: Rule, cov: Covered, name: string)
    requires name == NAMESPACES && LookupName(cov.resource) == name && "*" in cov.groups
    ensures !AlwaysMatched(table, c, cov)
  {
    assert ValueMatches("*", "") && "" in [""];
  }

  /** No covered resource is a bare wildcard, and each plural of the table is
      covered at its own group alone. */
  ghost predicate PlainSurface(table: Table, constraints: seq<Rule>, rules: seq<Rule>) {
    forall c, p, cov :: c in constraints && p in c.resources && Covers(table, c, p, rules, cov) ==> PlainlyCovered(table, cov)
  }

  predicate PlainlyCovered(table: Table, cov: Covered) {
    var name := SplitSubresource(cov.resource).0;
    name != "*" && (name in table ==> forall g :: g in cov.groups ==> g == table[name].group)
  }

  /** Refusal is sound: when nothing is narrowable, the selector would decide
      about no request that policy and binding match. */
  lemma RefusalIsSound(table: Table, world: World, constraints: seq<Rule>, rules: seq<Rule>, c: Rule, q: Request)
    requires Agrees(world, table) && Concrete(q) && PlainName(q.name)
    requires !Narrowable(table, constraints, rules) && PlainSurface(table, constraints, rules)
    requires c in constraints && DirectlyMatched(c, rules, q, world)
    ensures !SelectorDecides(q, world)
  {
    var p, cov := SurfaceOfRequest(table, world, c, rules, q);
    var name := SplitSubresource(cov.resource).0;
    assert PlainlyCovered(table, cov);
    assert name == q.name;
    LookupOfPlainName(cov.resource, name);
    var g :| g in cov.groups && Admits(g, q.group);
    assert !AlwaysMatched(table, c, cov) ==> ResourceNarrows(table, c, p, rules);
    assert ResourceNarrows(table, c, p, rules) ==> ConstraintNarrows(table, c, c.resources, rules);
    assert IsNamespaceObject(q) ==> Overlap(cov.groups, [""]) by {
      assert "" in [""] && (q.group == "" ==> ValueMatches(g, ""));
    }
  }

  /** A constraint on one entry at every group and version, scope undeclared. */
  function Sweeping(resource: string): Rule {
    Rule(["*"], ["*"], [resource], Undeclared)
  }

  lemma SweepingMatches(resource: string, q: Request, world: World)
    requires Concrete(q) && ResourceAdmits(resource, q.name, q.sub)
    ensures DirectlyMatched(Sweeping(resource), [], q, world)
  {
    var c := Sweeping(resource);
    assert "*" in c.groups && Admits("*", q.group);
    assert "*" in c.versions && Admits("*", q.version);
    assert resource in c.resources;
  }

  /** When everything it covers is always matched, --namespace is refused. */
  lemma SweepingIsRefused(table: Table, resource: string)
    requires AlwaysMatched(table, Sweeping(resource), Covered(["*"], ["*"], resource))
    ensures !Narrowable(table, [Sweeping(resource)], [])
    ensures NamesAlwaysMatched(table, [Sweeping(resource)], [], Entry("*", "*", resource))
  {
    var c := Sweeping(resource);
    var cov := Unbound(table, c, resource);
    assert cov == Covered(["*"], ["*"], resource);
    assert "*" in cov.groups && "*" in cov.versions && HasEntry(cov, Entry("*", "*", resource));
    assert resource in c.resources && ResourceNames(table, c, resource, [], Entry("*", "*", resource));
    assert c in [c] && ConstraintNames(table, c, c.resources, [], Entry("*", "*", resource));
  }

  /** The proviso on bare wildcards is needed: a policy over "*" is refused, though
      it matches every request, namespaced ones included. */
  lemma BareWildcardIsRefused(table: Table, world: World, q: Request)
    requires Concrete(q) && q.sub == ""
    ensures !Narrowable(table, [Sweeping("*")], []) && NamesAlwaysMatched(table, [Sweeping("*")], [], Entry("*", "*", "*"))
    ensures DirectlyMatched(Sweeping("*"), [], q, world)
  {
    CutOfFree("*", '/');
    LookupOfPlainName("*", "*");
    SweepingIsRefused(table, "*");
    SweepingMatches("*", q, world);
  }

  /** So is the proviso on groups: a built-in cluster-scoped plural swept at every
      group is refused, though another group may serve a namespaced resource
      under the same plural. */
  lemma SharedPluralIsRefused(table: Table, world: World, name: string, q: Request)
    requires PlainName(name) && name != "*" && name != NAMESPACES && Free(name, '/')
    requires name in table && table[name].cluster
    requires Concrete(q) && q.name == name && q.sub == "" && q.group != table[name].group
    ensures !Narrowable(table, [Sweeping(name)], []) && NamesAlwaysMatched(table, [Sweeping(name)], [], Entry("*", "*", name))
    ensures DirectlyMatched(Sweeping(name), [], q, world)
  {
    CutOfFree(name, '/');
    LookupOfPlainName(name, name);
    SweptPluralIsMatched(table, name);
    SweepingIsRefused(table, name);
    SweepingMatches(name, q, world);
  }

  lemma SweptPluralIsMatched(table: Table, name: string)
    requires LookupName(name) == name && name != "" && name != "*" && name != NAMESPACES
    requires name in table && table[name].cluster
    ensures AlwaysMatched(table, Sweeping(name), Covered(["*"], ["*"], name))
  {
    assert ValueMatches("*", table[name].group) && table[name].group in [table[name].group];
    assert Overlap(["*"], [table[name].group]);
    assert ResourceScope(table, ["*"], name) == Cluster;
  }
}
