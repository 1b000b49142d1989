/** When refusing --namespace is right: the exact condition on the rules for the
    selector to decide about none of the requests that policy and binding match. */
module Refusals {
  import opened Sequences
  import opened Texts
  import opened BindingScope
  import opened SelectorReach

  /** In no world of the table's does the selector decide about a request that
      policy and binding match. */
  ghost predicate SelectorNeverDecides(table: Table, constraints: seq<Rule>, rules: seq<Rule>) {
    forall world: World, c, q ::
      Agrees(world, table) && c in constraints && Concrete(q) && PlainName(q.name) && DirectlyMatched(c, rules, q, world)
      ==> !SelectorDecides(q, world)
  }

  // ----------------------------------------------------- request by request

  /** The table says that the resource is cluster-scoped at this group. */
  predicate ServedCluster(table: Table, group: string, name: string) {
    name in table && table[name] == Served(group, true)
  }

  /** In some world the constraint's scope admits the request and the selector
      decides about it. */
  ghost predicate MayDecide(table: Table, c: Rule, q: Request) {
    exists world: World :: Possible(world, table, c.scope, q) && SelectorDecides(q, world)
  }

  /** For a Namespace object the scope must not rule it out; any other request
      must be one that may live in a namespace. */
  predicate Decidable(table: Table, declared: Declared, group: string, name: string) {
    if group == "" && name == NAMESPACES then
      || (declared != Declares(NamespacedScope) && !(name in table && table[name] == Served(group, false)))
      || (declared != Declares(ClusterScope) && !ServedCluster(table, group, name))
    else declared != Declares(ClusterScope) && !ServedCluster(table, group, name)
  }

  lemma MayDecideIff(table: Table, c: Rule, q: Request)
    requires Grounded(table) && Concrete(q)
    ensures MayDecide(table, c, q) <==> Decidable(table, c.scope, q.group, q.name)
  {
    var yes, no := WorldOf(table, true), WorldOf(table, false);
    WorldOfAgrees(table, true);
    WorldOfAgrees(table, false);
    if Decidable(table, c.scope, q.group, q.name) {
      assert (Possible(yes, table, c.scope, q) && SelectorDecides(q, yes)) || (Possible(no, table, c.scope, q) && SelectorDecides(q, no));
    }
  }

  // ------------------------------------------------------------ rule by rule

  /** A binding without rules matches what this one does. */
  const EVERYTHING := Rule(["*"], ["*"], ["*/*"], Undeclared)

  function Bounds(rules: seq<Rule>): seq<Rule> {
    if rules == [] then [EVERYTHING] else rules
  }

  lemma EverythingMatches(q: Request)
    ensures RuleMatches(EVERYTHING, q)
  {
    var all := "*/*";
    assert all == "*" + ['/'] + "*";
    CutOfJoined("*", '/', "*");
    assert "*" in EVERYTHING.groups && Admits("*", q.group) && "*" in EVERYTHING.versions && Admits("*", q.version);
    assert all in EVERYTHING.resources && ResourceAdmits(all, q.name, q.sub);
  }

  lemma MatchedByBound(c: Rule, rules: seq<Rule>, q: Request, world: World)
    ensures DirectlyMatched(c, rules, q, world)
       <==> PolicyMatches(c, q, world) && exists b :: b in Bounds(rules) && RuleMatches(b, q)
  {
    EverythingMatches(q);
    assert EVERYTHING in [EVERYTHING];
  }

  /** A resource entry of the constraint and one of a binding rule that overlap,
      in rules that share a version: requests may match both. */
  ghost predicate Lane(c: Rule, b: Rule, p: string, bound: string) {
    && p in c.resources && bound in b.resources && ResourceOverlap(p, bound)
    && Overlap(c.versions, b.versions)
  }

  function LaneName(p: string, bound: string): string {
    SplitSubresource(NarrowResource(p, bound)).0
  }

  predicate Shared(c: Rule, b: Rule, group: string) {
    group != "*" && ListAdmits(c.groups, group) && ListAdmits(b.groups, group)
  }

  /** Both rules sweep all groups. */
  predicate EveryGroup(c: Rule, b: Rule) {
    "*" in c.groups && "*" in b.groups
  }

  /** The condition, to be read off the two rules and the table. A constraint
      declared Cluster must keep clear of the core Namespace resource, under its
      name or a wildcard. Any other must name its groups on one side or the other
      and a resource that the table serves cluster-scoped from each group both
      sides admit, and that resource must not be the core Namespace unless the
      declared scope already rules it out. */
  ghost predicate LaneIsClear(table: Table, c: Rule, b: Rule, name: string) {
    if c.scope == Declares(ClusterScope)
    then !(Shared(c, b, "") && (name == "*" || name == NAMESPACES) && Decidable(table, c.scope, "", NAMESPACES))
    else
      && !EveryGroup(c, b)
      && forall g :: g in c.groups + b.groups && Shared(c, b, g) ==> name != "*" && !Decidable(table, c.scope, g, name)
  }

  ghost predicate LanesAreClear(table: Table, constraints: seq<Rule>, rules: seq<Rule>) {
    forall c, b, p, bound :: c in constraints && b in Bounds(rules) && NamesPlainly(c, b, p, bound)
      ==> LaneIsClear(table, c, b, LaneName(p, bound))
  }

  /** A lane under a wildcard or a name that requests can have. */
  ghost predicate NamesPlainly(c: Rule, b: Rule, p: string, bound: string) {
    Lane(c, b, p, bound) && (LaneName(p, bound) == "*" || PlainName(LaneName(p, bound)))
  }

  // ------------------------------------------------------- clear lanes are enough

  /** The lane a matched request takes. */
  lemma LaneOfRequest(c: Rule, b: Rule, q: Request) returns (p: string, bound: string)
    requires Concrete(q) && PlainName(q.name) && RuleMatches(c, q) && RuleMatches(b, q)
    ensures NamesPlainly(c, b, p, bound) && Shared(c, b, q.group)
    ensures LaneName(p, bound) == "*" || LaneName(p, bound) == q.name
  {
    p :| p in c.resources && ResourceAdmits(p, q.name, q.sub);
    bound :| bound in b.resources && ResourceAdmits(bound, q.name, q.sub);
    OverlapIsShared(c.versions, b.versions);
    NarrowSplits(p, bound);
  }

  lemma SharedIsListed(c: Rule, b: Rule, group: string)
    requires Shared(c, b, group) && !EveryGroup(c, b)
    ensures group in c.groups + b.groups
  {
  }

  lemma ClearLanesAreEnough(table: Table, constraints: seq<Rule>, rules: seq<Rule>, world: World, c: Rule, q: Request)
    requires Grounded(table) && LanesAreClear(table, constraints, rules)
    requires Agrees(world, table) && c in constraints && Concrete(q) && PlainName(q.name) && DirectlyMatched(c, rules, q, world)
    ensures !SelectorDecides(q, world)
  {
    MatchedByBound(c, rules, q, world);
    var b :| b in Bounds(rules) && RuleMatches(b, q);
    var p, bound := LaneOfRequest(c, b, q);
    assert LaneIsClear(table, c, b, LaneName(p, bound));
    MayDecideIff(table, c, q);
    if c.scope != Declares(ClusterScope) {
      SharedIsListed(c, b, q.group);
    }
    assert Possible(world, table, c.scope, q);
  }

  // ------------------------------------------------------- and they are necessary

  /** A request on the lane, for any group and name it admits. */
  lemma RequestOnLane(c: Rule, b: Rule, p: string, bound: string, group: string, name: string) returns (q: Request)
    requires Lane(c, b, p, bound) && Shared(c, b, group)
    requires name != "*" && Free(name, '/') && (LaneName(p, bound) == "*" || LaneName(p, bound) == name)
    ensures Concrete(q) && q.group == group && q.name == name && RuleMatches(c, q) && RuleMatches(b, q)
  {
    OverlapIsShared(c.versions, b.versions);
    var v :| v != "*" && ListAdmits(c.versions, v) && ListAdmits(b.versions, v);
    var s := SharedValue(SplitSubresource(p).1, SplitSubresource(bound).1);
    NarrowSplits(p, bound);
    q := Request(group, v, name, s);
    assert ResourceAdmits(p, name, s) && ResourceAdmits(bound, name, s);
  }

  /** What is matched and may be decided about belies SelectorNeverDecides. */
  lemma DecidedRequest(table: Table, constraints: seq<Rule>, rules: seq<Rule>, c: Rule, b: Rule, q: Request)
    requires Grounded(table) && c in constraints && b in Bounds(rules)
    requires Concrete(q) && PlainName(q.name) && RuleMatches(c, q) && RuleMatches(b, q)
    requires Decidable(table, c.scope, q.group, q.name)
    ensures !SelectorNeverDecides(table, constraints, rules)
  {
    MayDecideIff(table, c, q);
    var world: World :| Possible(world, table, c.scope, q) && SelectorDecides(q, world);
    MatchedByBound(c, rules, q, world);
  }

  /** A plain name the table does not know. */
  lemma FreshName(table: Table) returns (name: string)
    ensures PlainName(name) && name != "*" && Free(name, '/') && name !in table
  {
    name := UnusedText(table.Keys);
    assert ToLower(name) == name && name[0] == 'a';
  }

  /** A group the table does not serve `name` from. */
  lemma OtherGroup(table: Table, name: string) returns (group: string)
    ensures group != "*" && group != "" && !ServedCluster(table, group, name)
  {
    group := if name in table && table[name].group == "a" then "b" else "a";
  }

  lemma BlockedLane(table: Table, constraints: seq<Rule>, rules: seq<Rule>, c: Rule, b: Rule, p: string, bound: string, name: string)
    requires Grounded(table) && c in constraints && b in Bounds(rules)
    requires Lane(c, b, p, bound) && LaneName(p, bound) == name && (name == "*" || PlainName(name))
    requires !LaneIsClear(table, c, b, name)
    ensures !SelectorNeverDecides(table, constraints, rules)
  {
    SplitNameIsFree(NarrowResource(p, bound));
    if c.scope == Declares(ClusterScope) {
      var namespaces := NAMESPACES;
      NamespacesIsPlain(namespaces);
      var q := RequestOnLane(c, b, p, bound, "", namespaces);
      DecidedRequest(table, constraints, rules, c, b, q);
    } else {
      var n, g := name, "";
      if name == "*" {
        n := FreshName(table);
      }
      if EveryGroup(c, b) {
        g := OtherGroup(table, n);
      } else {
        g :| g in c.groups + b.groups && Shared(c, b, g) && (name == "*" || Decidable(table, c.scope, g, name));
      }
      var q := RequestOnLane(c, b, p, bound, g, n);
      DecidedRequest(table, constraints, rules, c, b, q);
    }
  }

  /** The selector decides about no request that policy and binding match, in any
      world, if and only if every lane of the rules is clear. So whether a refusal
      is right can be read off the rules and the table. */
  lemma RefusalIsExact(table: Table, constraints: seq<Rule>, rules: seq<Rule>)
    requires Grounded(table)
    ensures SelectorNeverDecides(table, constraints, rules) <==> LanesAreClear(table, constraints, rules)
  {
    if LanesAreClear(table, constraints, rules) {
      forall world: World, c, q |
        Agrees(world, table) && c in constraints && Concrete(q) && PlainName(q.name) && DirectlyMatched(c, rules, q, world)
        ensures !SelectorDecides(q, world)
      {
        ClearLanesAreEnough(table, constraints, rules, world, c, q);
      }
    } else {
      var c, b, p, bound :| c in constraints && b in Bounds(rules) && NamesPlainly(c, b, p, bound)
        && !LaneIsClear(table, c, b, LaneName(p, bound));
      BlockedLane(table, constraints, rules, c, b, p, bound, LaneName(p, bound));
    }
  }

  /** In particular the plain surfaces of RefusalIsSound are clear once refused. */
  lemma PlainRefusalsAreClear(table: Table, constraints: seq<Rule>, rules: seq<Rule>)
    requires Grounded(table) && !Narrowable(table, constraints, rules) && PlainSurface(table, constraints, rules)
    ensures LanesAreClear(table, constraints, rules)
  {
    forall world: World, c, q |
      Agrees(world, table) && c in constraints && Concrete(q) && PlainName(q.name) && DirectlyMatched(c, rules, q, world)
      ensures !SelectorDecides(q, world)
    {
      RefusalIsSound(table, world, constraints, rules, c, q);
    }
    RefusalIsExact(table, constraints, rules);
  }

  /** A sweep of one group's cluster-scoped resources. */
  function ClusterSweep(group: string): Rule {
    Rule([group], ["*"], ["*"], Declares(ClusterScope))
  }

  /** Refusals can be right without a plain surface: such a sweep, away from the
      core group, is refused, and the selector decides about nothing in it. */
  lemma ClusterSweepIsRightlyRefused(table: Table, group: string)
    requires Grounded(table) && group != "" && group != "*"
    ensures !Narrowable(table, [ClusterSweep(group)], []) && !PlainSurface(table, [ClusterSweep(group)], [])
    ensures SelectorNeverDecides(table, [ClusterSweep(group)], [])
  {
    var c := ClusterSweep(group);
    var cov := Unbound(table, c, "*");
    CutOfFree("*", '/');
    LookupOfPlainName("*", "*");
    KeptGroupsHas(table, ClusterScope, c.groups, "*", group);
    assert cov.groups != [] && cov.resource == "*";
    assert c in [c] && "*" in c.resources && Covers(table, c, "*", [], cov) && !PlainlyCovered(table, cov);
    assert !Shared(c, EVERYTHING, "");
    RefusalIsExact(table, [c], []);
  }
}
