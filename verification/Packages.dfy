/** listSBOMPackages: copies of a package are merged in one pass, then the ones
    with a matching copy are sorted and paged. */
module Packages {
  import opened Orders
  import opened Paging
  import opened Sequences
  import opened Texts

  datatype License = License(spdxExpression: string, value: string)

  datatype Package = Package(purl: string, name: string, version: string, kind: string, language: string,
                             licenses: seq<License>)

  /** A package is its purl, or its name, version and type without one. */
  datatype Key = Key(purl: string, name: string, version: string, kind: string)

  function KeyOf(p: Package): Key {
    if p.purl == "" then Key("", p.name, p.version, p.kind) else Key(p.purl, "", "", "")
  }

  datatype Options = Options(name: string, kind: string)

  predicate Contains(s: string, part: string) {
    part <= s || (s != [] && Contains(s[1..], part))
  }

  /** The filters on one copy; `opts.name` is already lower case. */
  predicate Selected(p: Package, opts: Options) {
    && (opts.name == "" || Contains(ToLower(p.name), opts.name))
    && (opts.kind == "" || ToLower(p.kind) == ToLower(opts.kind))
  }

  datatype Entry = Entry(name: string, version: string, kind: string, language: string, purl: string, licenses: seq<string>)
  {
    function Fields(): seq<string> {
      [name, version, kind, purl]
    }
  }

  predicate EntryLess(a: Entry, b: Entry) {
    FieldsLess(a.Fields(), b.Fields())
  }

  lemma EntryLessIsStrict()
    ensures StrictOrder(EntryLess)
    ensures forall a, b :: EntryLess(a, b) || EntryLess(b, a) || a.Fields() == b.Fields()
  {
    FieldsLessIsTotalOrder();
  }

  // -------------------------------------------------------------------- licences

  function LicenseText(l: License): string {
    if l.spdxExpression == "" then l.value else l.spdxExpression
  }

  /** `known` with the new texts of `licenses`, each once. */
  function WithLicenses(known: seq<string>, licenses: seq<License>): seq<string> {
    if licenses == [] then known
    else
      var n := |licenses| - 1;
      var init := WithLicenses(known, licenses[..n]);
      var value := LicenseText(licenses[n]);
      if value == "" || value in init then init else init + [value]
  }

  /** The licences of every copy under `key`, matching or not, in the order met. */
  function LicensesOf(packages: seq<Package>, key: Key): seq<string> {
    if packages == [] then []
    else
      var n := |packages| - 1;
      var init := LicensesOf(packages[..n], key);
      if KeyOf(packages[n]) == key then WithLicenses(init, packages[n].licenses) else init
  }

  /** A licence goes by its SPDX expression, and by its value only without one. */
  predicate Carries(p: Package, value: string) {
    value != "" && exists l :: l in p.licenses && (l.spdxExpression == value || (l.spdxExpression == "" && l.value == value))
  }

  lemma {:induction false} WithLicensesIsUnion(known: seq<string>, licenses: seq<License>, value: string)
    requires Distinct(known)
    ensures Distinct(WithLicenses(known, licenses))
    ensures value in WithLicenses(known, licenses)
       <==> value in known || (value != "" && exists l :: l in licenses && LicenseText(l) == value)
  {
    if licenses != [] {
      var n := |licenses| - 1;
      WithLicensesIsUnion(known, licenses[..n], value);
      assert licenses == licenses[..n] + [licenses[n]];
    }
  }

  /** The licences listed are the union over all copies, without repetition. */
  lemma {:induction false} LicensesAreTheUnion(packages: seq<Package>, key: Key, value: string)
    ensures Distinct(LicensesOf(packages, key))
    ensures value in LicensesOf(packages, key) <==> exists p :: p in packages && KeyOf(p) == key && Carries(p, value)
  {
    if packages != [] {
      var n := |packages| - 1;
      LicensesAreTheUnion(packages[..n], key, value);
      WithLicensesIsUnion(LicensesOf(packages[..n], key), packages[n].licenses, value);
      assert packages == packages[..n] + [packages[n]];
    }
  }

  /** They are listed in the order met: another copy adds its own at the end. */
  lemma {:induction false} WithLicensesAddsAtEnd(known: seq<string>, licenses: seq<License>)
    ensures known <= WithLicenses(known, licenses)
  {
    if licenses != [] {
      WithLicensesAddsAtEnd(known, licenses[..|licenses| - 1]);
    }
  }

  lemma LicensesAddAtEnd(packages: seq<Package>, p: Package, key: Key)
    ensures LicensesOf(packages, key) <= LicensesOf(packages + [p], key)
  {
    assert (packages + [p])[..|packages|] == packages;
    WithLicensesAddsAtEnd(LicensesOf(packages, key), p.licenses);
  }

  /** Copies of one package: of one purl, or without one of one name, version and
      type. */
  lemma SamePackageIff(p: Package, q: Package)
    ensures KeyOf(p) == KeyOf(q)
       <==> p.purl == q.purl && (p.purl == "" ==> p.name == q.name && p.version == q.version && p.kind == q.kind)
  {
  }

  lemma {:induction false} ContainsIsPart(s: string, part: string)
    ensures Contains(s, part) <==> exists a, b :: s == a + part + b
  {
    if part <= s {
      assert s == [] + part + s[|part|..];
    } else if s != [] {
      ContainsIsPart(s[1..], part);
      if a, b :| s[1..] == a + part + b {
        assert s == ([s[0]] + a) + part + b;
      }
      if a, b :| s == a + part + b {
        assert a != [];
        assert s[1..] == a[1..] + part + b;
      }
    } else {
      assert |s| < |part|;
      assert forall a: string, b: string :: |a + part + b| >= |part|;
    }
  }

  /** What the filters ask of a copy: that its name holds the wanted text, the name in
      lower case, and that its type is the wanted one up to case. */
  lemma SelectedIff(p: Package, opts: Options, lower: string, kind: string)
    requires SameLetters(p.name, lower) && HasNoUpper(lower)
    requires SameLetters(opts.kind, kind) && HasNoUpper(kind)
    ensures Selected(p, opts)
       <==> && (opts.name == "" || exists a, b :: lower == a + opts.name + b)
            && (opts.kind == "" || SameLetters(p.kind, kind))
  {
    LowerIsExact(p.name, lower);
    LowerIsExact(opts.kind, kind);
    LowerIsExact(p.kind, kind);
    ContainsIsPart(lower, opts.name);
  }

  // ------------------------------------------------------------ what is reported

  /** The first copy of its package that passes the filters. */
  predicate FirstSelected(packages: seq<Package>, opts: Options, i: nat) {
    && i < |packages| && Selected(packages[i], opts)
    && forall j :: 0 <= j < i && KeyOf(packages[j]) == KeyOf(packages[i]) ==> !Selected(packages[j], opts)
  }

  function Report(p: Package, licenses: seq<string>): Entry {
    Entry(p.name, p.version, p.kind, p.language, p.purl, licenses)
  }

  ghost predicate Reported(packages: seq<Package>, opts: Options, e: Entry) {
    exists i: nat :: FirstSelected(packages, opts, i) && e == Report(packages[i], LicensesOf(packages, KeyOf(packages[i])))
  }

  /** The full list behind every page. */
  ghost predicate IsListing(packages: seq<Package>, opts: Options, entries: seq<Entry>) {
    StrictlySorted(EntryLess, entries) && forall e :: e in entries <==> Reported(packages, opts, e)
  }

  /** The four sort fields determine the package, so no two entries tie and the
      sort, though not stable, has one outcome. */
  lemma SortKeyIsInjective(packages: seq<Package>, opts: Options, e: Entry, f: Entry)
    requires Reported(packages, opts, e) && Reported(packages, opts, f) && e.Fields() == f.Fields()
    ensures e == f
  {
    var i: nat :| FirstSelected(packages, opts, i) && e == Report(packages[i], LicensesOf(packages, KeyOf(packages[i])));
    var j: nat :| FirstSelected(packages, opts, j) && f == Report(packages[j], LicensesOf(packages, KeyOf(packages[j])));
    var x, y := e.Fields(), f.Fields();
    assert x[0] == y[0] && x[1] == y[1] && x[2] == y[2] && x[3] == y[3];
    assert KeyOf(packages[i]) == KeyOf(packages[j]);
  }

  lemma ListingIsUnique(packages: seq<Package>, opts: Options, es: seq<Entry>, fs: seq<Entry>)
    requires IsListing(packages, opts, es) && IsListing(packages, opts, fs)
    ensures es == fs
  {
    EntryLessIsStrict();
    SortedIsUnique(EntryLess, es, fs);
  }

  /** A package is listed exactly once if some copy of it passes the filters, and
      not at all otherwise; listed, it has the licences of all its copies. */
  lemma ListedOncePerPackage(packages: seq<Package>, opts: Options, entries: seq<Entry>, key: Key)
    requires IsListing(packages, opts, entries)
    ensures (exists p :: p in packages && KeyOf(p) == key && Selected(p, opts))
       <==> (exists k :: 0 <= k < |entries| && EntryKey(entries[k]) == key)
    ensures forall k, l :: 0 <= k < l < |entries| ==> EntryKey(entries[k]) != EntryKey(entries[l])
    ensures forall k :: 0 <= k < |entries| && EntryKey(entries[k]) == key ==> entries[k].licenses == LicensesOf(packages, key)
  {
    if p :| p in packages && KeyOf(p) == key && Selected(p, opts) {
      var i := FirstCopy(packages, opts, p);
      var e := Report(packages[i], LicensesOf(packages, key));
      assert Reported(packages, opts, e);
      var k :| 0 <= k < |entries| && entries[k] == e;
    }
    forall k | 0 <= k < |entries|
      ensures entries[k].licenses == LicensesOf(packages, EntryKey(entries[k]))
      ensures exists p :: p in packages && KeyOf(p) == EntryKey(entries[k]) && Selected(p, opts)
    {
      assert Reported(packages, opts, entries[k]);
    }
    forall k, l | 0 <= k < l < |entries| ensures EntryKey(entries[k]) != EntryKey(entries[l]) {
      SamePackageSameEntry(packages, opts, entries[k], entries[l]);
      EntryLessIsStrict();
    }
  }

  /** An entry shows the first copy of its package that passes the filters. */
  lemma FirstCopyIsShown(packages: seq<Package>, opts: Options, entries: seq<Entry>, e: Entry) returns (i: nat)
    requires IsListing(packages, opts, entries) && e in entries
    ensures i < |packages| && Selected(packages[i], opts)
    ensures forall j :: 0 <= j < i && KeyOf(packages[j]) == KeyOf(packages[i]) ==> !Selected(packages[j], opts)
    ensures var p := packages[i];
            e.name == p.name && e.version == p.version && e.kind == p.kind && e.language == p.language && e.purl == p.purl
  {
    i :| FirstSelected(packages, opts, i) && e == Report(packages[i], LicensesOf(packages, KeyOf(packages[i])));
  }

  /** Entries ascend by name, version, type and purl, the first difference deciding. */
  lemma EntriesAscend(packages: seq<Package>, opts: Options, entries: seq<Entry>, i: nat, j: nat)
    requires IsListing(packages, opts, entries) && i < j < |entries|
    ensures var x, y := entries[i], entries[j];
            exists k :: 0 <= k < 4 && [x.name, x.version, x.kind, x.purl][..k] == [y.name, y.version, y.kind, y.purl][..k]
                     && TextLess([x.name, x.version, x.kind, x.purl][k], [y.name, y.version, y.kind, y.purl][k])
  {
    var x, y := entries[i], entries[j];
    assert EntryLess(x, y);
    FieldsLessIsFirstDifference([x.name, x.version, x.kind, x.purl], [y.name, y.version, y.kind, y.purl]);
  }

  function EntryKey(e: Entry): Key {
    if e.purl == "" then Key("", e.name, e.version, e.kind) else Key(e.purl, "", "", "")
  }

  lemma SamePackageSameEntry(packages: seq<Package>, opts: Options, e: Entry, f: Entry)
    requires Reported(packages, opts, e) && Reported(packages, opts, f)
    ensures EntryKey(e) == EntryKey(f) ==> e == f
  {
  }

  lemma FirstCopy(packages: seq<Package>, opts: Options, p: Package) returns (i: nat)
    requires p in packages && Selected(p, opts)
    ensures FirstSelected(packages, opts, i) && KeyOf(packages[i]) == KeyOf(p)
  {
    i :| i < |packages| && packages[i] == p;
    while !FirstSelected(packages, opts, i)
      invariant i < |packages| && Selected(packages[i], opts) && KeyOf(packages[i]) == KeyOf(p)
      decreases i
    {
      var before := i;
      i :| 0 <= i < before && KeyOf(packages[i]) == KeyOf(p) && Selected(packages[i], opts);
    }
  }

  // ------------------------------------------------------------------ the one pass

  /** One merged package: `seen` copies so far give it its licences, and once one
      of them is selected the first such one gives it its name. */
  ghost predicate MergedOk(packages: seq<Package>, opts: Options, key: Key, e: Entry, matched: bool) {
    && e.purl == key.purl
    && e.licenses == LicensesOf(packages, key)
    && (matched ==> exists i: nat :: FirstSelected(packages, opts, i) && KeyOf(packages[i]) == key
                      && e == Report(packages[i], LicensesOf(packages, key)))
    && (!matched ==> forall p :: p in packages && KeyOf(p) == key ==> !Selected(p, opts))
  }

  predicate Indexed(seen: map<Key, nat>, g: nat) {
    exists k :: k in seen && seen[k] == g
  }

  ghost predicate PassOk(packages: seq<Package>, opts: Options, seen: map<Key, nat>, all: seq<Entry>, matched: seq<bool>) {
    && |matched| == |all|
    && (forall k :: k in seen ==> seen[k] < |all| && MergedOk(packages, opts, k, all[seen[k]], matched[seen[k]]))
    && (forall k, l :: k in seen && l in seen && seen[k] == seen[l] ==> k == l)
    && (forall g :: 0 <= g < |all| ==> Indexed(seen, g))
    && (forall p :: p in packages ==> KeyOf(p) in seen)
  }

  lemma {:induction false} NoCopiesNoLicenses(packages: seq<Package>, key: Key)
    requires forall p :: p in packages ==> KeyOf(p) != key
    ensures LicensesOf(packages, key) == []
  {
    if packages != [] {
      NoCopiesNoLicenses(packages[..|packages| - 1], key);
    }
  }

  lemma FirstSelectedGrows(packages: seq<Package>, p: Package, opts: Options, i: nat)
    requires i < |packages|
    ensures FirstSelected(packages + [p], opts, i) <==> FirstSelected(packages, opts, i)
  {
    assert forall j :: 0 <= j <= i ==> (packages + [p])[j] == packages[j];
  }

  lemma LicensesGrow(packages: seq<Package>, p: Package, key: Key)
    ensures LicensesOf(packages + [p], key)
         == if KeyOf(p) == key then WithLicenses(LicensesOf(packages, key), p.licenses) else LicensesOf(packages, key)
  {
    assert (packages + [p])[..|packages|] == packages;
  }

  /** Another package's copy leaves a merged package as it is. */
  lemma OtherPackageStays(packages: seq<Package>, p: Package, opts: Options, key: Key, e: Entry, matched: bool)
    requires MergedOk(packages, opts, key, e, matched) && KeyOf(p) != key
    ensures MergedOk(packages + [p], opts, key, e, matched)
  {
    LicensesGrow(packages, p, key);
    if matched {
      var i: nat :| FirstSelected(packages, opts, i) && KeyOf(packages[i]) == key && e == Report(packages[i], LicensesOf(packages, key));
      FirstSelectedGrows(packages, p, opts, i);
      assert (packages + [p])[i] == packages[i];
    }
  }

  /** What the loop body makes of a merged package by another of its copies. */
  function Merged(e: Entry, matched: bool, p: Package, opts: Options): Entry {
    var named := if Selected(p, opts) && !matched
                 then e.(name := p.name, version := p.version, kind := p.kind, language := p.language) else e;
    named.(licenses := WithLicenses(named.licenses, p.licenses))
  }

  lemma CopyIsMerged(packages: seq<Package>, p: Package, opts: Options, e: Entry, matched: bool)
    requires MergedOk(packages, opts, KeyOf(p), e, matched)
    ensures MergedOk(packages + [p], opts, KeyOf(p), Merged(e, matched, p, opts), matched || Selected(p, opts))
  {
    var key, now := KeyOf(p), packages + [p];
    LicensesGrow(packages, p, key);
    if matched {
      var i: nat :| FirstSelected(packages, opts, i) && KeyOf(packages[i]) == key && e == Report(packages[i], LicensesOf(packages, key));
      FirstSelectedGrows(packages, p, opts, i);
      assert now[i] == packages[i];
    } else if Selected(p, opts) {
      assert forall j :: 0 <= j < |packages| ==> now[j] in packages;
      assert now[|packages|] == p;
      assert FirstSelected(now, opts, |packages|);
    }
  }

  lemma PassStep(packages: seq<Package>, p: Package, opts: Options, seen: map<Key, nat>, all: seq<Entry>, matched: seq<bool>)
    requires PassOk(packages, opts, seen, all, matched) && KeyOf(p) in seen
    ensures var i := seen[KeyOf(p)];
            PassOk(packages + [p], opts, seen, all[i := Merged(all[i], matched[i], p, opts)],
                   matched[i := matched[i] || Selected(p, opts)])
  {
    var i := seen[KeyOf(p)];
    var all', matched' := all[i := Merged(all[i], matched[i], p, opts)], matched[i := matched[i] || Selected(p, opts)];
    forall k | k in seen ensures MergedOk(packages + [p], opts, k, all'[seen[k]], matched'[seen[k]]) {
      if k == KeyOf(p) { CopyIsMerged(packages, p, opts, all[i], matched[i]); }
      else { OtherPackageStays(packages, p, opts, k, all[seen[k]], matched[seen[k]]); }
    }
  }

  lemma PassNew(packages: seq<Package>, p: Package, opts: Options, seen: map<Key, nat>, all: seq<Entry>, matched: seq<bool>)
    requires PassOk(packages, opts, seen, all, matched) && KeyOf(p) !in seen
    ensures PassOk(packages, opts, seen[KeyOf(p) := |all|], all + [Report(p, [])], matched + [false])
  {
    NoCopiesNoLicenses(packages, KeyOf(p));
    var seen', all', matched' := seen[KeyOf(p) := |all|], all + [Report(p, [])], matched + [false];
    forall k | k in seen' ensures seen'[k] < |all'| && MergedOk(packages, opts, k, all'[seen'[k]], matched'[seen'[k]]) {
      if k != KeyOf(p) { assert k in seen; }
    }
    forall g | 0 <= g < |all'| ensures Indexed(seen', g) {
      if g < |all| {
        assert Indexed(seen, g);
        var k :| k in seen && seen[k] == g;
        assert k in seen' && seen'[k] == g;
      } else {
        assert KeyOf(p) in seen' && seen'[KeyOf(p)] == g;
      }
    }
  }

  method AddLicenses(known: seq<string>, licenses: seq<License>) returns (r: seq<string>)
    ensures r == WithLicenses(known, licenses)
  {
    r := known;
    for i := 0 to |licenses|
      invariant r == WithLicenses(known, licenses[..i])
    {
      assert licenses[..i + 1][..i] == licenses[..i];
      var value := licenses[i].spdxExpression;
      if value == "" {
        value := licenses[i].value;
      }
      if value != "" && value !in r {
        r := r + [value];
      }
    }
    assert licenses[..|licenses|] == licenses;
  }

  method MergeCopies(packages: seq<Package>, opts: Options)
    returns (seen: map<Key, nat>, all: seq<Entry>, matched: seq<bool>)
    ensures PassOk(packages, opts, seen, all, matched)
  {
    seen, all, matched := map[], [], [];
    for n := 0 to |packages|
      invariant PassOk(packages[..n], opts, seen, all, matched)
    {
      var p := packages[n];
      assert packages[..n + 1] == packages[..n] + [p];
      var key := KeyOf(p);
      if key !in seen {
        PassNew(packages[..n], p, opts, seen, all, matched);
        seen := seen[key := |all|];
        matched := matched + [false];
        all := all + [Report(p, [])];
      }
      var i := seen[key];
      PassStep(packages[..n], p, opts, seen, all, matched);
      var e := all[i];
      var selected := Selected(p, opts);
      if selected && !matched[i] {
        e := e.(name := p.name, version := p.version, kind := p.kind, language := p.language);
      }
      var licenses := AddLicenses(e.licenses, p.licenses);
      e := e.(licenses := licenses);
      assert e == Merged(all[i], matched[i], p, opts);
      matched := matched[i := matched[i] || selected];
      all := all[i := e];
    }
    assert packages[..|packages|] == packages;
  }

  method KeepMatched(all: seq<Entry>, matched: seq<bool>) returns (entries: seq<Entry>)
    requires |matched| == |all|
    ensures forall e :: e in entries <==> exists g :: 0 <= g < |all| && matched[g] && all[g] == e
    ensures (forall g, h :: 0 <= g < h < |all| && matched[g] && matched[h] ==> all[g].Fields() != all[h].Fields()) ==>
      forall i, j :: 0 <= i < j < |entries| ==> entries[i].Fields() != entries[j].Fields()
  {
    entries := [];
    for n := 0 to |all|
      invariant forall e :: e in entries <==> exists g :: 0 <= g < n && matched[g] && all[g] == e
      invariant (forall g, h :: 0 <= g < h < |all| && matched[g] && matched[h] ==> all[g].Fields() != all[h].Fields()) ==>
        forall i, j :: 0 <= i < j < |entries| ==> entries[i].Fields() != entries[j].Fields()
    {
      if matched[n] {
        assert forall i :: 0 <= i < |entries| ==> entries[i] in entries;
        entries := entries + [all[n]];
      }
    }
  }

  lemma MergedAreReports(packages: seq<Package>, opts: Options, seen: map<Key, nat>, all: seq<Entry>, matched: seq<bool>, e: Entry)
    requires PassOk(packages, opts, seen, all, matched)
    ensures Reported(packages, opts, e) <==> exists g :: 0 <= g < |all| && matched[g] && all[g] == e
  {
    if i: nat :| FirstSelected(packages, opts, i) && e == Report(packages[i], LicensesOf(packages, KeyOf(packages[i]))) {
      assert packages[i] in packages;
      var g := seen[KeyOf(packages[i])];
      assert MergedOk(packages, opts, KeyOf(packages[i]), all[g], matched[g]);
      var j: nat :| FirstSelected(packages, opts, j) && KeyOf(packages[j]) == KeyOf(packages[i])
        && all[g] == Report(packages[j], LicensesOf(packages, KeyOf(packages[i])));
      assert i == j;
    }
    if g :| 0 <= g < |all| && matched[g] && all[g] == e {
      assert Indexed(seen, g);
      var k :| k in seen && seen[k] == g;
      assert MergedOk(packages, opts, k, all[g], matched[g]);
    }
  }

  /** One page of the one listing an SBOM's packages have. */
  method ListPackages(packages: seq<Package>, opts: Options, offset: nat, limit: nat)
    returns (page: Page<Entry>)
    ensures exists listing :: IsListing(packages, opts, listing)
    ensures forall listing :: IsListing(packages, opts, listing) ==> page == PageOf(listing, offset, limit)
  {
    var seen, all, matched := MergeCopies(packages, opts);
    var found := KeepMatched(all, matched);
    forall e ensures Reported(packages, opts, e) <==> e in found {
      MergedAreReports(packages, opts, seen, all, matched, e);
    }
    forall g, h | 0 <= g < h < |all| && matched[g] && matched[h] ensures all[g].Fields() != all[h].Fields() {
      DistinctPackagesDiffer(packages, opts, seen, all, matched, g, h);
    }
    EntryLessIsStrict();
    assert Comparable(EntryLess, found);
    var entries := Sort(EntryLess, found);
    SortSorts(EntryLess, found);
    SortKeeps(EntryLess, found);
    page := PageOf(entries, offset, limit);
    assert IsListing(packages, opts, entries);
    forall listing | IsListing(packages, opts, listing) ensures page == PageOf(listing, offset, limit) {
      ListingIsUnique(packages, opts, listing, entries);
    }
  }

  lemma DistinctPackagesDiffer(packages: seq<Package>, opts: Options, seen: map<Key, nat>, all: seq<Entry>, matched: seq<bool>, g: nat, h: nat)
    requires PassOk(packages, opts, seen, all, matched) && g < h < |all| && matched[g] && matched[h]
    ensures all[g].Fields() != all[h].Fields()
  {
    assert Indexed(seen, g) && Indexed(seen, h);
    var k :| k in seen && seen[k] == g;
    var l :| l in seen && seen[l] == h;
    assert MergedOk(packages, opts, k, all[g], true) && MergedOk(packages, opts, l, all[h], true);
    assert EntryKey(all[g]) == k && EntryKey(all[h]) == l;
    FieldsGiveKey(all[g], all[h]);
  }

  lemma FieldsGiveKey(e: Entry, f: Entry)
    ensures e.Fields() == f.Fields() ==> EntryKey(e) == EntryKey(f)
  {
    var x, y := e.Fields(), f.Fields();
    assert x == y ==> x[0] == y[0] && x[1] == y[1] && x[2] == y[2] && x[3] == y[3];
  }
}
