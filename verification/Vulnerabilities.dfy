/** listVulnerabilities: one pass groups the matches in place, then the groups
    are filtered, sorted and paged. The specification knows no order. */
module Vulnerabilities {
  import opened Orders
  import opened Paging

  datatype Fix = Fix(state: string, versions: seq<string>)

  predicate HasFix(fix: Fix) {
    fix.state == "fixed" && fix.versions != []
  }

  /** What an entry is about. */
  datatype Key = Key(id: string, name: string, version: string, kind: string, purl: string)
  {
    function Fields(): seq<string> {
      [id, name, version, kind, purl]
    }
  }

  /** One match of a manifest. `rank` is its parsed severity, 0 for unknown up to
      5 for critical; `details` stands for the description, CVSS, URLs and
      advisories. */
  datatype Match = Match(key: Key, rank: nat, namespace: string, dataSource: string, fix: Fix, details: string)

  /** A duplicate to prefer: more severe, then by namespace and data source. */
  predicate Better(a: Match, b: Match) {
    if a.rank != b.rank then a.rank > b.rank
    else FieldsLess([a.namespace, a.dataSource], [b.namespace, b.dataSource])
  }

  lemma BetterIsStrict()
    ensures StrictOrder(Better)
  {
    FieldsLessIsTotalOrder();
  }

  /** The filters; they stay the same while a client pages through a listing. */
  datatype Options = Options(minRank: nat, fixableOnly: bool, includeDetails: bool)

  datatype Extra = Omitted | Extra(details: string, dataSource: string)
  datatype Entry = Entry(key: Key, rank: nat, fix: Fix, extra: Extra)

  function EntryOf(best: Match, fix: Fix, opts: Options): Entry {
    Entry(best.key, best.rank, fix, if opts.includeDetails then Extra(best.details, best.dataSource) else Omitted)
  }

  /** Most severe first, then by the five fields of the key. */
  predicate EntryLess(a: Entry, b: Entry) {
    if a.rank != b.rank then a.rank > b.rank else FieldsLess(a.key.Fields(), b.key.Fields())
  }

  lemma EntryLessIsStrict()
    ensures StrictOrder(EntryLess)
    ensures forall a: Entry, b: Entry :: a.key != b.key ==> EntryLess(a, b) || EntryLess(b, a)
  {
    FieldsLessIsTotalOrder();
    forall a: Entry, b: Entry | a.key != b.key ensures EntryLess(a, b) || EntryLess(b, a) {
      if a.key.Fields() == b.key.Fields() { FieldsAreTheKey(a.key, b.key); }
    }
  }

  lemma FieldsAreTheKey(a: Key, b: Key)
    requires a.Fields() == b.Fields()
    ensures a == b
  {
    var x, y := a.Fields(), b.Fields();
    assert x[0] == y[0] && x[1] == y[1] && x[2] == y[2] && x[3] == y[3] && x[4] == y[4];
  }

  // ------------------------------------------------------------ what is reported

  /** Every match, or only those with a fix. */
  predicate Counts(m: Match, fixedOnly: bool) {
    fixedOnly ==> HasFix(m.fix)
  }

  /** No match of the same entry is better. */
  predicate Unbeaten(matches: seq<Match>, m: Match, fixedOnly: bool) {
    && m in matches && Counts(m, fixedOnly)
    && forall o :: o in matches && o.key == m.key && Counts(o, fixedOnly) ==> !Better(o, m)
  }

  /** The first of the unbeaten ones. */
  predicate BestAt(matches: seq<Match>, i: nat, fixedOnly: bool) {
    && i < |matches| && Unbeaten(matches, matches[i], fixedOnly)
    && forall j :: 0 <= j < i && matches[j].key == matches[i].key && Counts(matches[j], fixedOnly) ==>
         Better(matches[i], matches[j])
  }

  predicate HasFixed(matches: seq<Match>, key: Key) {
    exists m :: m in matches && m.key == key && HasFix(m.fix)
  }

  /** `i` and `f` are the matches an entry takes its severity and its fix from:
      the fix comes from the same group, from its best fixed match if it has one. */
  predicate Chosen(matches: seq<Match>, i: nat, f: nat) {
    && BestAt(matches, i, false) && f < |matches|
    && matches[f].key == matches[i].key
    && if HasFixed(matches, matches[i].key) then BestAt(matches, f, true) else f == i
  }

  predicate Passes(matches: seq<Match>, best: Match, opts: Options) {
    best.rank >= opts.minRank && (opts.fixableOnly ==> HasFixed(matches, best.key))
  }

  ghost predicate Reported(matches: seq<Match>, opts: Options, e: Entry) {
    exists i: nat, f: nat :: ReportedFrom(matches, opts, e, i, f)
  }

  predicate ReportedFrom(matches: seq<Match>, opts: Options, e: Entry, i: nat, f: nat) {
    Chosen(matches, i, f) && Passes(matches, matches[i], opts) && e == EntryOf(matches[i], matches[f].fix, opts)
  }

  /** The full list behind every page: strictly sorted, and holding the report of
      every group that passes the filters and nothing else. */
  ghost predicate IsListing(matches: seq<Match>, opts: Options, entries: seq<Entry>) {
    && StrictlySorted(EntryLess, entries)
    && forall e :: e in entries <==> Reported(matches, opts, e)
  }

  lemma FirstIsUnique(matches: seq<Match>, i: nat, j: nat, fixedOnly: bool)
    requires BestAt(matches, i, fixedOnly) && BestAt(matches, j, fixedOnly) && matches[i].key == matches[j].key
    ensures i == j
  {
  }

  /** A group is reported once. */
  lemma ReportIsUnique(matches: seq<Match>, opts: Options, e: Entry, e': Entry)
    requires Reported(matches, opts, e) && Reported(matches, opts, e') && e.key == e'.key
    ensures e == e'
  {
    var i: nat, f: nat :| ReportedFrom(matches, opts, e, i, f);
    var i': nat, f': nat :| ReportedFrom(matches, opts, e', i', f');
    FirstIsUnique(matches, i, i', false);
    if HasFixed(matches, matches[i].key) {
      FirstIsUnique(matches, f, f', true);
    }
  }

  // ------------------------------------------------------ the order of the matches

  predicate SameMatches(ms: seq<Match>, ns: seq<Match>) {
    (forall m :: m in ms ==> m in ns) && (forall m :: m in ns ==> m in ms)
  }

  /** Unbeaten matches of a reported group differ in nothing that is reported. */
  ghost predicate TiesAgree(ms: seq<Match>, opts: Options) {
    && (forall a, b :: Tied(ms, a, b, false) && Passes(ms, a, opts) ==> !BestsDiffer(ms, a, b, opts))
    && (forall a, x, y :: Unbeaten(ms, a, false) && Passes(ms, a, opts) && Tied(ms, x, y, true) && x.key == a.key ==>
          x.fix == y.fix)
  }

  predicate BestsDiffer(ms: seq<Match>, a: Match, b: Match, opts: Options) {
    || EntryOf(a, a.fix, opts).extra != EntryOf(b, b.fix, opts).extra
    || (!HasFixed(ms, a.key) && a.fix != b.fix)
  }

  predicate Tied(ms: seq<Match>, a: Match, b: Match, fixedOnly: bool) {
    Unbeaten(ms, a, fixedOnly) && Unbeaten(ms, b, fixedOnly) && a.key == b.key
  }

  lemma TiedRank(ms: seq<Match>, a: Match, b: Match, fixedOnly: bool)
    requires Tied(ms, a, b, fixedOnly)
    ensures a.rank == b.rank && a.namespace == b.namespace && a.dataSource == b.dataSource
  {
    FieldsLessIsTotalOrder();
    var x, y := [a.namespace, a.dataSource], [b.namespace, b.dataSource];
    assert !Better(a, b) && !Better(b, a);
    assert x == y;
    assert x[0] == y[0] && x[1] == y[1];
  }

  /** In particular when distinct matches of one group always differ in severity,
      namespace or data source. */
  lemma DistinctSourcesAgree(ms: seq<Match>, opts: Options)
    requires forall a, b | a in ms && b in ms && a.key == b.key ::
      a.rank == b.rank && a.namespace == b.namespace && a.dataSource == b.dataSource ==> a == b
    ensures TiesAgree(ms, opts)
  {
    forall a, b, fixedOnly | Tied(ms, a, b, fixedOnly) ensures a == b {
      TiedRank(ms, a, b, fixedOnly);
    }
  }

  lemma SameGroups(ms: seq<Match>, ns: seq<Match>)
    requires SameMatches(ms, ns)
    ensures forall m, fixedOnly :: Unbeaten(ms, m, fixedOnly) <==> Unbeaten(ns, m, fixedOnly)
    ensures forall key :: HasFixed(ms, key) <==> HasFixed(ns, key)
    ensures forall m, opts :: Passes(ms, m, opts) <==> Passes(ns, m, opts)
  {
    forall key ensures HasFixed(ms, key) <==> HasFixed(ns, key) {}
  }

  /** The first unbeaten match of a group that has one. */
  lemma FirstUnbeaten(ms: seq<Match>, m: Match, fixedOnly: bool) returns (i: nat)
    requires Unbeaten(ms, m, fixedOnly)
    ensures BestAt(ms, i, fixedOnly) && ms[i].key == m.key
  {
    BetterIsStrict();
    i :| i < |ms| && ms[i] == m;
    while !BestAt(ms, i, fixedOnly)
      invariant i < |ms| && Unbeaten(ms, ms[i], fixedOnly) && ms[i].key == m.key
      decreases i
    {
      var j :| 0 <= j < i && ms[j].key == ms[i].key && Counts(ms[j], fixedOnly) && !Better(ms[i], ms[j]);
      AsGood(ms, ms[i], ms[j], fixedOnly);
      i := j;
    }
  }

  lemma AsGood(ms: seq<Match>, a: Match, b: Match, fixedOnly: bool)
    requires Unbeaten(ms, a, fixedOnly) && b in ms && b.key == a.key && Counts(b, fixedOnly) && !Better(a, b)
    ensures Unbeaten(ms, b, fixedOnly)
  {
    FieldsLessIsTotalOrder();
    assert !Better(b, a);
    assert [a.namespace, a.dataSource] == [b.namespace, b.dataSource];
    forall o | o in ms && o.key == b.key && Counts(o, fixedOnly) ensures !Better(o, b) {
      assert !Better(o, a);
    }
  }

  lemma SameTies(ms: seq<Match>, ns: seq<Match>, opts: Options)
    requires SameMatches(ms, ns) && TiesAgree(ms, opts)
    ensures TiesAgree(ns, opts)
  {
    SameGroups(ms, ns);
    forall a, b | Tied(ns, a, b, false) && Passes(ns, a, opts) ensures !BestsDiffer(ns, a, b, opts) {
      assert Tied(ms, a, b, false) && Passes(ms, a, opts);
    }
    forall a, x, y | Unbeaten(ns, a, false) && Passes(ns, a, opts) && Tied(ns, x, y, true) && x.key == a.key ensures x.fix == y.fix {
      assert Unbeaten(ms, a, false) && Passes(ms, a, opts) && Tied(ms, x, y, true);
    }
  }

  /** The first unbeaten match of the other arrangement says the same. */
  lemma SameBest(ms: seq<Match>, ns: seq<Match>, opts: Options, i: nat) returns (j: nat)
    requires SameMatches(ms, ns) && TiesAgree(ms, opts)
    requires BestAt(ms, i, false) && Passes(ms, ms[i], opts)
    ensures BestAt(ns, j, false) && ns[j].key == ms[i].key && ns[j].rank == ms[i].rank && Passes(ns, ns[j], opts)
    ensures !BestsDiffer(ms, ms[i], ns[j], opts)
  {
    SameGroups(ms, ns);
    assert Unbeaten(ns, ms[i], false);
    j := FirstUnbeaten(ns, ms[i], false);
    assert Unbeaten(ms, ns[j], false);
    assert Tied(ms, ms[i], ns[j], false);
    TiedRank(ms, ms[i], ns[j], false);
  }

  lemma SameFix(ms: seq<Match>, ns: seq<Match>, opts: Options, i: nat, f: nat) returns (h: nat)
    requires SameMatches(ms, ns) && TiesAgree(ms, opts)
    requires BestAt(ms, i, false) && Passes(ms, ms[i], opts) && BestAt(ms, f, true) && ms[f].key == ms[i].key
    ensures BestAt(ns, h, true) && ns[h].key == ms[i].key && ns[h].fix == ms[f].fix
  {
    SameGroups(ms, ns);
    assert Unbeaten(ns, ms[f], true);
    h := FirstUnbeaten(ns, ms[f], true);
    assert Unbeaten(ms, ns[h], true);
    assert Tied(ms, ms[f], ns[h], true);
  }

  lemma SameEntry(ms: seq<Match>, a: Match, b: Match, fix: Fix, opts: Options)
    requires a.key == b.key && a.rank == b.rank && !BestsDiffer(ms, a, b, opts)
    ensures EntryOf(a, fix, opts) == EntryOf(b, fix, opts)
  {
  }

  lemma ReportCarriesOver(ms: seq<Match>, ns: seq<Match>, opts: Options, e: Entry)
    requires SameMatches(ms, ns) && TiesAgree(ms, opts) && Reported(ms, opts, e)
    ensures Reported(ns, opts, e)
  {
    var i: nat, f: nat :| ReportedFrom(ms, opts, e, i, f);
    var j := SameBest(ms, ns, opts, i);
    SameEntry(ms, ms[i], ns[j], ms[f].fix, opts);
    var h := j;
    if HasFixed(ms, ms[i].key) {
      h := SameFix(ms, ns, opts, i, f);
    }
    StillChosen(ms, ns, i, j, h);
    assert ReportedFrom(ns, opts, e, j, h);
  }

  lemma StillChosen(ms: seq<Match>, ns: seq<Match>, i: nat, j: nat, h: nat)
    requires SameMatches(ms, ns) && i < |ms| && BestAt(ns, j, false) && ns[j].key == ms[i].key
    requires if HasFixed(ms, ms[i].key) then BestAt(ns, h, true) && ns[h].key == ms[i].key else h == j
    ensures Chosen(ns, j, h)
  {
    SameGroups(ms, ns);
  }

  /** A list of matches has one listing. */
  lemma ListingIsUnique(ms: seq<Match>, opts: Options, es: seq<Entry>, fs: seq<Entry>)
    requires IsListing(ms, opts, es) && IsListing(ms, opts, fs)
    ensures es == fs
  {
    EntryLessIsStrict();
    SortedIsUnique(EntryLess, es, fs);
  }

  /** When ties agree the listing depends on the set of matches alone: in any
      order and with any repetition, the same matches are listed alike. */
  lemma OrderDoesNotShow(ms: seq<Match>, ns: seq<Match>, opts: Options, es: seq<Entry>, fs: seq<Entry>)
    requires SameMatches(ms, ns) && TiesAgree(ms, opts)
    requires IsListing(ms, opts, es) && IsListing(ns, opts, fs)
    ensures es == fs
  {
    SameTies(ms, ns, opts);
    EntryLessIsStrict();
    forall e ensures e in es <==> e in fs {
      if e in es { ReportCarriesOver(ms, ns, opts, e); }
      if e in fs { ReportCarriesOver(ns, ms, opts, e); }
    }
    SortedIsUnique(EntryLess, es, fs);
  }

  /** The same matches in another order. */
  predicate Rearranges(ms: seq<Match>, ns: seq<Match>) {
    multiset(ms) == multiset(ns)
  }

  lemma RearrangedIsSame(ms: seq<Match>, ns: seq<Match>)
    requires Rearranges(ms, ns)
    ensures SameMatches(ms, ns)
  {
    assert forall m :: m in ms <==> m in multiset(ms);
    assert forall m :: m in ns <==> m in multiset(ns);
  }

  /** The matches with the one at `i` moved to the front. */
  function ToFront(ms: seq<Match>, i: nat): (ns: seq<Match>)
    requires i < |ms|
    ensures Rearranges(ms, ns) && SameMatches(ms, ns) && ns[0] == ms[i]
  {
    var ns := [ms[i]] + ms[..i] + ms[i + 1..];
    assert ms == ms[..i] + [ms[i]] + ms[i + 1..];
    RearrangedIsSame(ms, ns);
    ns
  }

  /** Putting an unbeaten match first makes it the one that is reported. */
  lemma FirstWins(ms: seq<Match>, i: nat, fixedOnly: bool)
    requires i < |ms| && Unbeaten(ms, ms[i], fixedOnly)
    ensures BestAt(ToFront(ms, i), 0, fixedOnly)
  {
    SameGroups(ms, ToFront(ms, i));
  }

  lemma BestsShow(ms: seq<Match>, opts: Options, a: Match, b: Match) returns (ns: seq<Match>, ns': seq<Match>)
    requires Tied(ms, a, b, false) && Passes(ms, a, opts) && BestsDiffer(ms, a, b, opts)
    ensures Rearranges(ms, ns) && Rearranges(ms, ns')
    ensures forall es :: !(IsListing(ns, opts, es) && IsListing(ns', opts, es))
  {
    var i, j :| 0 <= i < |ms| && 0 <= j < |ms| && ms[i] == a && ms[j] == b;
    ns, ns' := ToFront(ms, i), ToFront(ms, j);
    TiedRank(ms, a, b, false);
    var e, f := ReportOfFirst(ms, i, opts);
    var e', f' := ReportOfFirst(ms, j, opts);
    DifferentReports(ns, ns', opts, e, e');
  }

  lemma FixesShow(ms: seq<Match>, opts: Options, a: Match, x: Match, y: Match) returns (ns: seq<Match>, ns': seq<Match>)
    requires Unbeaten(ms, a, false) && Passes(ms, a, opts) && Tied(ms, x, y, true) && x.key == a.key && x.fix != y.fix
    ensures Rearranges(ms, ns) && Rearranges(ms, ns')
    ensures forall es :: !(IsListing(ns, opts, es) && IsListing(ns', opts, es))
  {
    var i, j :| 0 <= i < |ms| && 0 <= j < |ms| && ms[i] == x && ms[j] == y;
    ns, ns' := ToFront(ms, i), ToFront(ms, j);
    var e := ReportOfFirstFix(ms, a, i, opts);
    var e' := ReportOfFirstFix(ms, a, j, opts);
    DifferentReports(ns, ns', opts, e, e');
  }

  /** When ties do not agree the order shows: two rearrangements of the matches
      have no listing in common. */
  lemma OrderShows(ms: seq<Match>, opts: Options) returns (ns: seq<Match>, ns': seq<Match>)
    requires !TiesAgree(ms, opts)
    ensures Rearranges(ms, ns) && Rearranges(ms, ns')
    ensures forall es :: !(IsListing(ns, opts, es) && IsListing(ns', opts, es))
  {
    if a, b :| Tied(ms, a, b, false) && Passes(ms, a, opts) && BestsDiffer(ms, a, b, opts) {
      ns, ns' := BestsShow(ms, opts, a, b);
    } else {
      var a, x, y :| Unbeaten(ms, a, false) && Passes(ms, a, opts) && Tied(ms, x, y, true) && x.key == a.key && x.fix != y.fix;
      ns, ns' := FixesShow(ms, opts, a, x, y);
    }
  }

  /** One listing for every order of the matches. */
  ghost predicate OrderFree(ms: seq<Match>, opts: Options) {
    forall ns, ns', es, fs ::
      Rearranges(ms, ns) && Rearranges(ms, ns') && IsListing(ns, opts, es) && IsListing(ns', opts, fs) ==> es == fs
  }

  /** The response is the same for every permutation of the matches if and only if
      ties agree. */
  lemma OrderFreeIffTiesAgree(ms: seq<Match>, opts: Options)
    ensures OrderFree(ms, opts) <==> TiesAgree(ms, opts)
  {
    if TiesAgree(ms, opts) {
      forall ns, ns', es, fs |
        Rearranges(ms, ns) && Rearranges(ms, ns') && IsListing(ns, opts, es) && IsListing(ns', opts, fs)
        ensures es == fs
      {
        RearrangedIsSame(ms, ns);
        RearrangedIsSame(ns, ns');
        SameTies(ms, ns, opts);
        OrderDoesNotShow(ns, ns', opts, es, fs);
      }
    } else {
      var ns, ns' := OrderShows(ms, opts);
      var es := ListingExists(ns, opts);
      var fs := ListingExists(ns', opts);
    }
  }

  /** Reported for a group whose first best match is among the first `n`. */
  ghost predicate ReportedUpTo(ms: seq<Match>, opts: Options, n: nat, e: Entry) {
    exists i: nat, f: nat :: i < n && ReportedFrom(ms, opts, e, i, f)
  }

  lemma {:induction false} ReportsUpTo(ms: seq<Match>, opts: Options, n: nat) returns (es: seq<Entry>)
    requires n <= |ms|
    ensures forall e :: e in es <==> ReportedUpTo(ms, opts, n, e)
    ensures forall k, l :: 0 <= k < l < |es| ==> es[k].key != es[l].key
  {
    es := [];
    if n > 0 {
      var m := ms[n - 1];
      es := ReportsUpTo(ms, opts, n - 1);
      if BestAt(ms, n - 1, false) && Passes(ms, m, opts) {
        var f: nat := n - 1;
        if HasFixed(ms, m.key) {
          f := BestFixed(ms, m.key);
        }
        var e := EntryOf(m, ms[f].fix, opts);
        NewReport(ms, opts, n, es, e, f);
        es := es + [e];
      }
    }
  }

  lemma NewReport(ms: seq<Match>, opts: Options, n: nat, es: seq<Entry>, e: Entry, f: nat)
    requires 0 < n <= |ms| && ReportedFrom(ms, opts, e, n - 1, f)
    requires forall x :: x in es <==> ReportedUpTo(ms, opts, n - 1, x)
    ensures forall k :: 0 <= k < |es| ==> es[k].key != e.key
    ensures forall x :: x in es + [e] <==> ReportedUpTo(ms, opts, n, x)
  {
    forall k | 0 <= k < |es| ensures es[k].key != e.key {
      assert es[k] in es;
      var i: nat, g: nat :| i < n - 1 && ReportedFrom(ms, opts, es[k], i, g);
      assert BestAt(ms, i, false) && BestAt(ms, n - 1, false);
    }
    forall x | ReportedUpTo(ms, opts, n, x) ensures x in es + [e] {
      var i: nat, g: nat :| i < n && ReportedFrom(ms, opts, x, i, g);
      if i == n - 1 {
        ReportIsUnique(ms, opts, x, e);
      } else {
        assert ReportedUpTo(ms, opts, n - 1, x);
      }
    }
    assert ReportedUpTo(ms, opts, n, e);
  }

  lemma ListingExists(ms: seq<Match>, opts: Options) returns (es: seq<Entry>)
    ensures IsListing(ms, opts, es)
  {
    var found := ReportsUpTo(ms, opts, |ms|);
    EntryLessIsStrict();
    assert Comparable(EntryLess, found);
    es := Sort(EntryLess, found);
    SortSorts(EntryLess, found);
    SortKeeps(EntryLess, found);
    forall e ensures e in es <==> Reported(ms, opts, e) {
      assert Reported(ms, opts, e) <==> ReportedUpTo(ms, opts, |ms|, e);
    }
  }

  lemma DifferentReports(ns: seq<Match>, ns': seq<Match>, opts: Options, e: Entry, e': Entry)
    requires Reported(ns, opts, e) && Reported(ns', opts, e') && e.key == e'.key && e != e'
    ensures forall es :: !(IsListing(ns, opts, es) && IsListing(ns', opts, es))
  {
    forall es | IsListing(ns, opts, es) ensures !IsListing(ns', opts, es) {
      if IsListing(ns', opts, es) {
        assert e in es && e' in es;
        ReportIsUnique(ns, opts, e, e');
      }
    }
  }

  lemma ReportOfFirst(ms: seq<Match>, i: nat, opts: Options) returns (e: Entry, f: nat)
    requires i < |ms| && Unbeaten(ms, ms[i], false) && Passes(ms, ms[i], opts)
    ensures Reported(ToFront(ms, i), opts, e)
    ensures f < |ms| && f < |ToFront(ms, i)| && e == EntryOf(ms[i], ToFront(ms, i)[f].fix, opts)
    ensures !HasFixed(ms, ms[i].key) ==> f == 0
  {
    var ns := ToFront(ms, i);
    FirstWins(ms, i, false);
    SameGroups(ms, ns);
    f := 0;
    if HasFixed(ns, ms[i].key) {
      f := BestFixed(ns, ms[i].key);
    }
    e := EntryOf(ms[i], ns[f].fix, opts);
    assert ReportedFrom(ns, opts, e, 0, f);
  }

  lemma ReportOfFirstFix(ms: seq<Match>, a: Match, i: nat, opts: Options) returns (e: Entry)
    requires Unbeaten(ms, a, false) && Passes(ms, a, opts)
    requires i < |ms| && Unbeaten(ms, ms[i], true) && ms[i].key == a.key
    ensures Reported(ToFront(ms, i), opts, e) && e.key == a.key && e.fix == ms[i].fix
  {
    var ns := ToFront(ms, i);
    FirstWins(ms, i, true);
    SameGroups(ms, ns);
    assert HasFixed(ns, a.key);
    var k := FirstUnbeaten(ns, a, false);
    assert Tied(ns, a, ns[k], false);
    TiedRank(ns, a, ns[k], false);
    e := EntryOf(ns[k], ms[i].fix, opts);
    assert ReportedFrom(ns, opts, e, k, 0);
  }

  /** A group with a fixed match has a first best one. */
  lemma BestFixed(ms: seq<Match>, key: Key) returns (f: nat)
    requires HasFixed(ms, key)
    ensures BestAt(ms, f, true) && ms[f].key == key
  {
    var m :| m in ms && m.key == key && HasFix(m.fix);
    var top := Climb(ms, m, true);
    f := FirstUnbeaten(ms, top, true);
  }

  lemma Climb(ms: seq<Match>, m: Match, fixedOnly: bool) returns (top: Match)
    requires m in ms && Counts(m, fixedOnly)
    ensures Unbeaten(ms, top, fixedOnly) && top.key == m.key
  {
    BetterIsStrict();
    top := m;
    for i := 0 to |ms|
      invariant top in ms && top.key == m.key && Counts(top, fixedOnly)
      invariant forall j :: 0 <= j < i && ms[j].key == m.key && Counts(ms[j], fixedOnly) ==> !Better(ms[j], top)
    {
      if ms[i].key == m.key && Counts(ms[i], fixedOnly) && Better(ms[i], top) {
        top := ms[i];
      }
    }
  }

  // ------------------------------------------------------------------ the one pass

  datatype Group = Group(best: Match, bestFixed: Match, hasFixed: bool)

  /** What a group holds is what the matches so far choose for its key; `i` and
      `f` are where its matches stand. */
  ghost predicate GroupOk(ms: seq<Match>, g: Group, i: nat, f: nat) {
    && BestAt(ms, i, false) && ms[i] == g.best
    && (g.hasFixed <==> HasFixed(ms, g.best.key))
    && (g.hasFixed ==> BestAt(ms, f, true) && ms[f] == g.bestFixed && g.bestFixed.key == g.best.key)
  }

  /** The index finds the one group of every key seen. */
  ghost predicate IndexOk(ms: seq<Match>, groups: seq<Group>, index: map<Key, nat>) {
    && (forall k :: k in index ==> index[k] < |groups| && groups[index[k]].best.key == k)
    && (forall g :: 0 <= g < |groups| ==> groups[g].best.key in index && index[groups[g].best.key] == g)
    && (forall m :: m in ms ==> m.key in index)
  }

  ghost predicate GroupsOk(ms: seq<Match>, groups: seq<Group>) {
    forall g :: 0 <= g < |groups| ==> GroupHere(ms, groups[g])
  }

  ghost predicate GroupHere(ms: seq<Match>, g: Group) {
    exists i: nat, f: nat :: GroupOk(ms, g, i, f)
  }

  lemma BetterIsWeak(a: Match, b: Match, c: Match)
    requires Better(a, b) && !Better(c, b)
    ensures Better(a, c)
  {
    FieldsLessIsTotalOrder();
    BetterIsStrict();
    var y, z := [b.namespace, b.dataSource], [c.namespace, c.dataSource];
    if b.rank == c.rank && y == z {
      assert y[0] == z[0] && y[1] == z[1];
    } else {
      assert Better(b, c);
    }
  }

  lemma BestStays(ms: seq<Match>, m: Match, i: nat, fixedOnly: bool)
    requires BestAt(ms, i, fixedOnly)
    requires m.key != ms[i].key || !Counts(m, fixedOnly) || !Better(m, ms[i])
    ensures BestAt(ms + [m], i, fixedOnly)
  {
    assert forall j :: 0 <= j < |ms| ==> (ms + [m])[j] == ms[j];
  }

  lemma BetterTakesOver(ms: seq<Match>, m: Match, i: nat, fixedOnly: bool)
    requires BestAt(ms, i, fixedOnly) && m.key == ms[i].key && Counts(m, fixedOnly) && Better(m, ms[i])
    ensures BestAt(ms + [m], |ms|, fixedOnly)
  {
    BetterIsStrict();
    var ns := ms + [m];
    forall j | 0 <= j < |ms| && ns[j].key == m.key && Counts(ns[j], fixedOnly) ensures Better(m, ns[j]) {
      assert ns[j] in ms;
      BetterIsWeak(m, ms[i], ms[j]);
    }
    forall o | o in ns && o.key == m.key && Counts(o, fixedOnly) ensures !Better(o, m) {
      if o in ms { assert !Better(o, ms[i]); }
    }
    assert ns[|ms|] == m;
  }

  lemma FirstOfItsKind(ms: seq<Match>, m: Match, fixedOnly: bool)
    requires Counts(m, fixedOnly) && forall o :: o in ms && o.key == m.key ==> !Counts(o, fixedOnly)
    ensures BestAt(ms + [m], |ms|, fixedOnly)
  {
    BetterIsStrict();
    var ns := ms + [m];
    assert forall j :: 0 <= j < |ms| ==> ns[j] in ms;
    assert ns[|ms|] == m;
  }

  lemma HasFixedGrows(ms: seq<Match>, m: Match, key: Key)
    ensures HasFixed(ms + [m], key) <==> HasFixed(ms, key) || (m.key == key && HasFix(m.fix))
  {
    if HasFixed(ms, key) {
      var o :| o in ms && o.key == key && HasFix(o.fix);
      assert o in ms + [m];
    }
    assert m in ms + [m];
  }

  /** A match of another group leaves a group as it is. */
  lemma OtherGroupStays(ms: seq<Match>, m: Match, g: Group)
    requires GroupHere(ms, g) && m.key != g.best.key
    ensures GroupHere(ms + [m], g)
  {
    var i: nat, f: nat :| GroupOk(ms, g, i, f);
    BestStays(ms, m, i, false);
    if g.hasFixed { BestStays(ms, m, f, true); }
    HasFixedGrows(ms, m, g.best.key);
    assert GroupOk(ms + [m], g, i, f);
  }

  /** The update of a group by another of its matches. */
  function Updated(g: Group, c: Match): Group {
    var best := if Better(c, g.best) then c else g.best;
    if HasFix(c.fix) && (!g.hasFixed || Better(c, g.bestFixed)) then Group(best, c, true)
    else Group(best, g.bestFixed, g.hasFixed)
  }

  lemma UpdateKeepsGroup(ms: seq<Match>, m: Match, g: Group)
    requires GroupHere(ms, g) && m.key == g.best.key
    ensures GroupHere(ms + [m], Updated(g, m))
  {
    var i: nat, f: nat :| GroupOk(ms, g, i, f);
    var i', f' := i, f;
    if Better(m, g.best) {
      BetterTakesOver(ms, m, i, false);
      i' := |ms|;
    } else {
      BestStays(ms, m, i, false);
    }
    HasFixedGrows(ms, m, m.key);
    if HasFix(m.fix) && !g.hasFixed {
      FirstOfItsKind(ms, m, true);
      f' := |ms|;
    } else if g.hasFixed && HasFix(m.fix) && Better(m, g.bestFixed) {
      BetterTakesOver(ms, m, f, true);
      f' := |ms|;
    } else if g.hasFixed {
      BestStays(ms, m, f, true);
    }
    assert GroupOk(ms + [m], Updated(g, m), i', f');
  }

  lemma NewGroup(ms: seq<Match>, m: Match)
    requires forall o :: o in ms ==> o.key != m.key
    ensures GroupHere(ms + [m], Group(m, m, HasFix(m.fix)))
  {
    FirstOfItsKind(ms, m, false);
    if HasFix(m.fix) { FirstOfItsKind(ms, m, true); }
    HasFixedGrows(ms, m, m.key);
    assert GroupOk(ms + [m], Group(m, m, HasFix(m.fix)), |ms|, |ms|);
  }

  lemma AddingKeepsGroups(ms: seq<Match>, m: Match, groups: seq<Group>, index: map<Key, nat>)
    requires IndexOk(ms, groups, index) && GroupsOk(ms, groups) && m.key !in index
    ensures IndexOk(ms + [m], groups + [Group(m, m, HasFix(m.fix))], index[m.key := |groups|])
    ensures GroupsOk(ms + [m], groups + [Group(m, m, HasFix(m.fix))])
  {
    NewGroup(ms, m);
    forall k | 0 <= k < |groups| ensures GroupHere(ms + [m], groups[k]) {
      assert GroupHere(ms, groups[k]);
      OtherGroupStays(ms, m, groups[k]);
    }
  }

  lemma UpdatedHere(ms: seq<Match>, m: Match, groups: seq<Group>, index: map<Key, nat>, k: nat)
    requires IndexOk(ms, groups, index) && GroupsOk(ms, groups) && m.key in index && k < |groups|
    ensures GroupHere(ms + [m], if k == index[m.key] then Updated(groups[k], m) else groups[k])
  {
    assert GroupHere(ms, groups[k]);
    if k == index[m.key] { UpdateKeepsGroup(ms, m, groups[k]); } else { OtherGroupStays(ms, m, groups[k]); }
  }

  lemma UpdatingKeepsIndex(ms: seq<Match>, m: Match, groups: seq<Group>, index: map<Key, nat>)
    requires IndexOk(ms, groups, index) && m.key in index
    ensures IndexOk(ms + [m], groups[index[m.key] := Updated(groups[index[m.key]], m)], index)
  {
  }

  lemma UpdatingKeepsGroups(ms: seq<Match>, m: Match, groups: seq<Group>, index: map<Key, nat>)
    requires IndexOk(ms, groups, index) && GroupsOk(ms, groups) && m.key in index
    ensures IndexOk(ms + [m], groups[index[m.key] := Updated(groups[index[m.key]], m)], index)
    ensures GroupsOk(ms + [m], groups[index[m.key] := Updated(groups[index[m.key]], m)])
  {
    UpdatingKeepsIndex(ms, m, groups, index);
    var updated := groups[index[m.key] := Updated(groups[index[m.key]], m)];
    forall k | 0 <= k < |groups| ensures GroupHere(ms + [m], updated[k]) {
      UpdatedHere(ms, m, groups, index, k);
    }
  }

  method GroupMatches(matches: seq<Match>) returns (groups: seq<Group>, index: map<Key, nat>)
    ensures IndexOk(matches, groups, index) && GroupsOk(matches, groups)
    ensures forall g :: 0 <= g < |groups| ==> HoldsTheWorst(matches, groups[g])
  {
    groups, index := [], map[];
    for n := 0 to |matches|
      invariant IndexOk(matches[..n], groups, index) && GroupsOk(matches[..n], groups)
    {
      var m := matches[n];
      assert matches[..n + 1] == matches[..n] + [m];
      var fixed := HasFix(m.fix);
      if m.key !in index {
        AddingKeepsGroups(matches[..n], m, groups, index);
        index := index[m.key := |groups|];
        groups := groups + [Group(m, m, fixed)];
      } else {
        UpdatingKeepsGroups(matches[..n], m, groups, index);
        var i := index[m.key];
        var g := groups[i];
        if Better(m, g.best) {
          g := g.(best := m);
        }
        if fixed && (!g.hasFixed || Better(m, g.bestFixed)) {
          g := g.(bestFixed := m, hasFixed := true);
        }
        assert g == Updated(groups[i], m);
        groups := groups[i := g];
      }
    }
    assert matches[..|matches|] == matches;
    forall g | 0 <= g < |groups| ensures HoldsTheWorst(matches, groups[g]) {
      GroupHoldsTheWorst(matches, groups[g]);
    }
  }

  /** The group's most severe match, and its most severe one with a fix if it has any. */
  predicate HoldsTheWorst(ms: seq<Match>, g: Group) {
    && IsShown(ms, g.best, false)
    && (g.hasFixed <==> exists o :: o in ms && o.key == g.best.key && Fixed(o))
    && (g.hasFixed ==> IsShown(ms, g.bestFixed, true) && g.bestFixed.key == g.best.key)
  }

  lemma GroupHoldsTheWorst(ms: seq<Match>, g: Group)
    requires GroupHere(ms, g)
    ensures HoldsTheWorst(ms, g)
  {
    var i: nat, f: nat :| GroupOk(ms, g, i, f);
    UnbeatenIsShown(ms, g.best, false);
    if g.hasFixed { UnbeatenIsShown(ms, g.bestFixed, true); }
    if o :| o in ms && o.key == g.best.key && Fixed(o) { assert HasFixed(ms, g.best.key); }
    if HasFixed(ms, g.best.key) {
      var o :| o in ms && o.key == g.best.key && HasFix(o.fix);
      assert Fixed(o);
    }
  }

  /** The entry of a group, before the filters. */
  function GroupEntry(g: Group, opts: Options): Entry {
    EntryOf(g.best, if g.hasFixed then g.bestFixed.fix else g.best.fix, opts)
  }

  predicate GroupPasses(g: Group, opts: Options) {
    g.best.rank >= opts.minRank && (opts.fixableOnly ==> HasFix(if g.hasFixed then g.bestFixed.fix else g.best.fix))
  }

  /** A group that passes is reported, as the specification reports it. */
  lemma GroupIsReport(ms: seq<Match>, g: Group, opts: Options)
    requires GroupHere(ms, g)
    ensures GroupPasses(g, opts) <==> Passes(ms, g.best, opts)
    ensures GroupPasses(g, opts) ==> Reported(ms, opts, GroupEntry(g, opts))
    ensures HoldsTheWorst(ms, g) && GroupEntry(g, opts).rank == g.best.rank
  {
    GroupHoldsTheWorst(ms, g);
    var i: nat, f: nat :| GroupOk(ms, g, i, f);
    assert ms[i] in ms;
    if GroupPasses(g, opts) {
      assert ReportedFrom(ms, opts, GroupEntry(g, opts), i, if g.hasFixed then f else i);
    }
  }

  lemma ReportIsGroup(ms: seq<Match>, groups: seq<Group>, index: map<Key, nat>, opts: Options, e: Entry)
    requires IndexOk(ms, groups, index) && GroupsOk(ms, groups) && Reported(ms, opts, e)
    ensures exists k :: 0 <= k < |groups| && GroupPasses(groups[k], opts) && e == GroupEntry(groups[k], opts)
  {
    var i: nat, f: nat :| ReportedFrom(ms, opts, e, i, f);
    assert ms[i] in ms;
    var k := index[ms[i].key];
    var g := groups[k];
    assert GroupHere(ms, g);
    var a: nat, b: nat :| GroupOk(ms, g, a, b);
    FirstIsUnique(ms, i, a, false);
    GroupIsReport(ms, g, opts);
    ReportIsUnique(ms, opts, e, GroupEntry(g, opts));
  }

  method EntriesOf(groups: seq<Group>, opts: Options) returns (entries: seq<Entry>)
    requires forall i, j :: 0 <= i < j < |groups| ==> groups[i].best.key != groups[j].best.key
    ensures forall e :: e in entries <==> exists k :: 0 <= k < |groups| && GroupPasses(groups[k], opts) && e == GroupEntry(groups[k], opts)
    ensures forall i, j :: 0 <= i < j < |entries| ==> entries[i].key != entries[j].key
  {
    entries := [];
    for n := 0 to |groups|
      invariant forall e :: e in entries <==> exists k :: 0 <= k < n && GroupPasses(groups[k], opts) && e == GroupEntry(groups[k], opts)
      invariant forall i, j :: 0 <= i < j < |entries| ==> entries[i].key != entries[j].key
    {
      var g := groups[n];
      var fix := if g.hasFixed then g.bestFixed.fix else g.best.fix;
      if g.best.rank < opts.minRank {
        continue;
      }
      if opts.fixableOnly && !HasFix(fix) {
        continue;
      }
      forall i | 0 <= i < |entries| ensures entries[i].key != g.best.key {
        assert entries[i] in entries;
      }
      entries := entries + [EntryOf(g.best, fix, opts)];
    }
  }

  /** One page of the one listing the matches have. */
  method ListVulnerabilities(matches: seq<Match>, opts: Options, offset: nat, limit: nat)
    returns (page: Page<Entry>)
    ensures exists listing :: IsListing(matches, opts, listing)
    ensures forall listing :: IsListing(matches, opts, listing) ==> page == PageOf(listing, offset, limit)
    ensures forall e :: e in page.items ==> HasGreatestRank(matches, e)
  {
    var groups, index := GroupMatches(matches);
    var found := EntriesOf(groups, opts);
    forall e ensures e in found <==> Reported(matches, opts, e) {
      if e in found {
        var k :| 0 <= k < |groups| && GroupPasses(groups[k], opts) && e == GroupEntry(groups[k], opts);
        assert GroupHere(matches, groups[k]);
        GroupIsReport(matches, groups[k], opts);
      }
      if Reported(matches, opts, e) {
        ReportIsGroup(matches, groups, index, opts, e);
      }
    }
    EntryLessIsStrict();
    assert Comparable(EntryLess, found);
    var entries := Sort(EntryLess, found);
    SortSorts(EntryLess, found);
    SortKeeps(EntryLess, found);
    page := PageOf(entries, offset, limit);
    assert IsListing(matches, opts, entries);
    forall listing | IsListing(matches, opts, listing) ensures page == PageOf(listing, offset, limit) {
      ListingIsUnique(matches, opts, listing, entries);
    }
    forall e | e in page.items ensures HasGreatestRank(matches, e) {
      RankIsGreatest(matches, opts, entries, e);
    }
  }

  // ------------------------------------------------------- what a listing shows, in ranks

  /** A match of the entry's key, none of them with more severity, and among those of
      the same severity first by namespace and data source. */
  predicate IsShown(ms: seq<Match>, m: Match, fixedOnly: bool) {
    && m in ms && (fixedOnly ==> Fixed(m))
    && forall o :: o in ms && o.key == m.key && (fixedOnly ==> Fixed(o)) ==>
         && o.rank <= m.rank
         && (o.rank == m.rank ==>
               TextLess(m.namespace, o.namespace) || (m.namespace == o.namespace && !TextLess(o.dataSource, m.dataSource)))
  }

  /** A fix with versions to go to. */
  predicate Fixed(m: Match) {
    m.fix.state == "fixed" && m.fix.versions != []
  }

  lemma SourcesCompared(a: Match, b: Match)
    ensures FieldsLess([a.namespace, a.dataSource], [b.namespace, b.dataSource])
       <==> TextLess(a.namespace, b.namespace) || (a.namespace == b.namespace && TextLess(a.dataSource, b.dataSource))
  {
    var x, y := [a.namespace, a.dataSource], [b.namespace, b.dataSource];
    FieldsLessIsFirstDifference(x, y);
    TextLessIsTotalOrder();
    if TextLess(a.namespace, b.namespace) { assert x[..0] == y[..0] && TextLess(x[0], y[0]); }
    if a.namespace == b.namespace && TextLess(a.dataSource, b.dataSource) {
      assert x[..1] == [x[0]] && y[..1] == [y[0]] && TextLess(x[1], y[1]);
    }
    if k: nat :| k < |x| && x[..k] == y[..k] && TextLess(x[k], y[k]) {
      assert k == 1 ==> x[..1][0] == y[..1][0];
    }
  }

  lemma UnbeatenIsShown(ms: seq<Match>, m: Match, fixedOnly: bool)
    requires Unbeaten(ms, m, fixedOnly)
    ensures IsShown(ms, m, fixedOnly)
  {
    TextLessIsTotalOrder();
    forall o | o in ms && o.key == m.key && (fixedOnly ==> Fixed(o))
      ensures o.rank <= m.rank
      ensures o.rank == m.rank ==>
        TextLess(m.namespace, o.namespace) || (m.namespace == o.namespace && !TextLess(o.dataSource, m.dataSource))
    {
      assert Counts(o, fixedOnly) && !Better(o, m);
      SourcesCompared(o, m);
    }
  }

  /** What an entry says: the severity of the most severe match of its key, with that
      match's details if asked for, and the fix of the most severe match that has one. */
  lemma EntryShowsTheWorst(ms: seq<Match>, opts: Options, es: seq<Entry>, e: Entry) returns (m: Match, f: Match)
    requires IsListing(ms, opts, es) && e in es
    ensures m.key == e.key && IsShown(ms, m, false) && e.rank == m.rank
    ensures e.extra == if opts.includeDetails then Extra(m.details, m.dataSource) else Omitted
    ensures f.key == e.key && e.fix == f.fix
    ensures if exists o :: o in ms && o.key == e.key && Fixed(o) then IsShown(ms, f, true) else f == m
  {
    var i: nat, j: nat :| ReportedFrom(ms, opts, e, i, j);
    m, f := ms[i], ms[j];
    UnbeatenIsShown(ms, m, false);
    if o :| o in ms && o.key == e.key && Fixed(o) {
      assert HasFixed(ms, e.key);
      UnbeatenIsShown(ms, f, true);
    }
  }

  /** No match of the entry's key is more severe, and one is as severe. */
  predicate HasGreatestRank(ms: seq<Match>, e: Entry) {
    && (forall o :: o in ms && o.key == e.key ==> o.rank <= e.rank)
    && exists o :: o in ms && o.key == e.key && o.rank == e.rank
  }

  lemma RankIsGreatest(ms: seq<Match>, opts: Options, es: seq<Entry>, e: Entry)
    requires IsListing(ms, opts, es) && e in es
    ensures HasGreatestRank(ms, e)
  {
    var m, f := EntryShowsTheWorst(ms, opts, es, e);
  }

  /** Which keys are listed: those with a match that is severe enough and, when only
      fixable ones are asked for, with a match that has a fix. */
  lemma ListedIff(ms: seq<Match>, opts: Options, es: seq<Entry>, key: Key)
    requires IsListing(ms, opts, es)
    ensures (exists e :: e in es && e.key == key)
       <==> && (exists o :: o in ms && o.key == key && o.rank >= opts.minRank)
            && (opts.fixableOnly ==> exists o :: o in ms && o.key == key && Fixed(o))
  {
    if e :| e in es && e.key == key {
      ListedPasses(ms, opts, es, e);
    }
    if o :| o in ms && o.key == key && o.rank >= opts.minRank {
      if opts.fixableOnly ==> exists o :: o in ms && o.key == key && Fixed(o) {
        PassingIsListed(ms, opts, es, o);
      }
    }
  }

  lemma ListedPasses(ms: seq<Match>, opts: Options, es: seq<Entry>, e: Entry)
    requires IsListing(ms, opts, es) && e in es
    ensures exists o :: o in ms && o.key == e.key && o.rank >= opts.minRank
    ensures opts.fixableOnly ==> exists o :: o in ms && o.key == e.key && Fixed(o)
  {
    var i: nat, j: nat :| ReportedFrom(ms, opts, e, i, j);
    assert ms[i] in ms;
    if opts.fixableOnly {
      var o :| o in ms && o.key == e.key && HasFix(o.fix);
      assert Fixed(o);
    }
  }

  lemma PassingIsListed(ms: seq<Match>, opts: Options, es: seq<Entry>, o: Match)
    requires IsListing(ms, opts, es) && o in ms && o.rank >= opts.minRank
    requires opts.fixableOnly ==> exists x :: x in ms && x.key == o.key && Fixed(x)
    ensures exists e :: e in es && e.key == o.key
  {
    var i := SomeBest(ms, o, false);
    UnbeatenIsShown(ms, ms[i], false);
    var j := i;
    if x :| x in ms && x.key == o.key && Fixed(x) {
      assert HasFixed(ms, o.key);
      j := SomeBest(ms, x, true);
    }
    if HasFixed(ms, o.key) {
      var x :| x in ms && x.key == o.key && HasFix(x.fix);
      assert Fixed(x);
    }
    assert ReportedFrom(ms, opts, EntryOf(ms[i], ms[j].fix, opts), i, j);
  }

  /** Every group has a best match. */
  lemma SomeBest(ms: seq<Match>, o: Match, fixedOnly: bool) returns (i: nat)
    requires o in ms && Counts(o, fixedOnly)
    ensures BestAt(ms, i, fixedOnly) && ms[i].key == o.key
  {
    var m := SomeUnbeaten(ms, o, |ms|, fixedOnly);
    i := FirstUnbeaten(ms, m, fixedOnly);
  }

  lemma {:induction false} SomeUnbeaten(ms: seq<Match>, o: Match, n: nat, fixedOnly: bool) returns (m: Match)
    requires o in ms && Counts(o, fixedOnly) && n <= |ms|
    ensures m in ms && m.key == o.key && Counts(m, fixedOnly)
    ensures m == o || Better(m, o)
    ensures forall k :: 0 <= k < n && ms[k].key == o.key && Counts(ms[k], fixedOnly) ==> !Better(ms[k], m)
    ensures n == |ms| ==> Unbeaten(ms, m, fixedOnly)
    decreases n
  {
    BetterIsStrict();
    m := o;
    if n > 0 {
      m := SomeUnbeaten(ms, o, n - 1, fixedOnly);
      var c := ms[n - 1];
      if c.key == o.key && Counts(c, fixedOnly) && Better(c, m) { m := c; }
    }
  }

  /** The order: severities do not rise, and of the same severity the entries ascend
      by ID, name, version, type and PURL, the first difference deciding. */
  lemma RanksDoNotRise(ms: seq<Match>, opts: Options, es: seq<Entry>, i: nat, j: nat)
    requires IsListing(ms, opts, es) && i < j < |es|
    ensures es[j].rank <= es[i].rank
    ensures es[j].rank == es[i].rank ==>
      exists k :: 0 <= k < 5 && Fields(es[i])[..k] == Fields(es[j])[..k] && TextLess(Fields(es[i])[k], Fields(es[j])[k])
  {
    assert EntryLess(es[i], es[j]);
    FieldsLessIsFirstDifference(Fields(es[i]), Fields(es[j]));
  }

  function Fields(e: Entry): (fs: seq<string>)
    ensures |fs| == 5
  {
    [e.key.id, e.key.name, e.key.version, e.key.kind, e.key.purl]
  }

  /** Paging is stable even if the manifest's matches come back in another order
      for every page: when ties agree, the pages are one listing in pieces. */
  lemma PagesFitTogether(ms: seq<Match>, opts: Options, stored: nat -> seq<Match>, lists: nat -> seq<Entry>, limit: nat -> nat)
    requires TiesAgree(ms, opts)
    requires forall o :: SameMatches(ms, stored(o))
    requires forall o :: IsListing(stored(o), opts, lists(o))
    requires forall o :: limit(o) >= 1
    ensures Followed(lists, limit, 0, |lists(0)| + 1) == (lists(0), Last)
  {
    forall o: nat ensures lists(o) == lists(0) {
      SameTies(ms, stored(0), opts);
      assert SameMatches(stored(0), stored(o));
      OrderDoesNotShow(stored(0), stored(o), opts, lists(0), lists(o));
    }
    PagesAreTheList(lists(0), lists, limit, 0, |lists(0)| + 1);
    assert lists(0)[0..] == lists(0);
  }
}
