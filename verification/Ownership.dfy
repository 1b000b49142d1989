/** deduplicateWorkloadFindings: a finding on a workload is dropped when the same
    finding is made on one of the workload's owners. */
module Ownership {
  import opened Sequences
  import opened Texts

  datatype OwnerRef = OwnerRef(kind: string, name: string, uid: string, controller: bool)

  datatype Workload = Workload(kind: string, name: string, uid: string, owners: seq<OwnerRef>)

  /** `signature` stands for makeFindingSignature's digest of container, location,
      key, value and override. */
  datatype Finding = Finding(kind: string, name: string, signature: string)

  function WorkloadKey(kind: string, name: string): string {
    ToLower(kind) + "/" + ToLower(name)
  }

  function KeyOf(w: Workload): string {
    WorkloadKey(w.kind, w.name)
  }

  function OwnerKey(f: Finding): string {
    WorkloadKey(f.kind, f.name)
  }

  predicate EqualFold(a: string, b: string) {
    ToLower(a) == ToLower(b)
  }

  /** Equal up to case. */
  lemma FoldIsSameLetters(a: string, b: string)
    ensures EqualFold(a, b) <==> SameLetters(ToLower(a), ToLower(b))
  {
    LowerIsExact(a, ToLower(a));
    LowerIsExact(b, ToLower(b));
    LowerIsExact(ToLower(a), ToLower(a));
    LowerIsExact(ToLower(a), ToLower(b));
  }

  /** Workloads are found by kind and name up to case; kinds hold no separator. */
  lemma KeysAgreeIff(k: string, n: string, l: string, m: string)
    requires Free(k, '/') && Free(l, '/')
    ensures WorkloadKey(k, n) == WorkloadKey(l, m) <==> EqualFold(k, l) && EqualFold(n, m)
  {
    FoldIsSameLetters(k, l);
    FoldIsSameLetters(n, m);
    assert WorkloadKey(k, n) == ToLower(k) + ['/'] + ToLower(n) && WorkloadKey(l, m) == ToLower(l) + ['/'] + ToLower(m);
    CutOfJoined(ToLower(k), '/', ToLower(n));
    CutOfJoined(ToLower(l), '/', ToLower(m));
  }

  // -------------------------------------------------------------------- the index

  datatype Index = Index(byKindName: map<string, Workload>, byUid: map<string, Workload>)

  /** Later workloads replace earlier ones under the same key. */
  function IndexOf(ws: seq<Workload>): Index {
    if ws == [] then Index(map[], map[])
    else
      var n := |ws| - 1;
      var rest, w := IndexOf(ws[..n]), ws[n];
      Index(rest.byKindName[KeyOf(w) := w], if w.uid == "" then rest.byUid else rest.byUid[w.uid := w])
  }

  method BuildIndex(ws: seq<Workload>) returns (index: Index)
    ensures index == IndexOf(ws)
  {
    var byKindName: map<string, Workload>, byUid: map<string, Workload> := map[], map[];
    for i := 0 to |ws|
      invariant Index(byKindName, byUid) == IndexOf(ws[..i])
    {
      assert ws[..i + 1][..i] == ws[..i];
      byKindName := byKindName[KeyOf(ws[i]) := ws[i]];
      if ws[i].uid != "" {
        byUid := byUid[ws[i].uid := ws[i]];
      }
    }
    assert ws[..|ws|] == ws;
    return Index(byKindName, byUid);
  }

  predicate UniqueKeys(ws: seq<Workload>) {
    forall i, j :: 0 <= i < j < |ws| ==> KeyOf(ws[i]) != KeyOf(ws[j])
  }

  lemma {:induction false} IndexHolds(ws: seq<Workload>)
    ensures forall k :: k in IndexOf(ws).byKindName ==> IndexOf(ws).byKindName[k] in ws && KeyOf(IndexOf(ws).byKindName[k]) == k
    ensures forall u :: u in IndexOf(ws).byUid ==> IndexOf(ws).byUid[u] in ws
  {
    if ws != [] {
      var n := |ws| - 1;
      IndexHolds(ws[..n]);
      assert ws[n] in ws;
      assert forall w :: w in ws[..n] ==> w in ws;
    }
  }

  lemma {:induction false} IndexFinds(ws: seq<Workload>, i: nat)
    requires UniqueKeys(ws) && i < |ws|
    ensures KeyOf(ws[i]) in IndexOf(ws).byKindName && IndexOf(ws).byKindName[KeyOf(ws[i])] == ws[i]
  {
    var n := |ws| - 1;
    if i < n {
      assert UniqueKeys(ws[..n]);
      IndexFinds(ws[..n], i);
    }
  }

  // ------------------------------------------------------------------- ancestors

  datatype Found = Nobody | Someone(w: Workload)
  datatype Ref = NoRef | Ref(ref: OwnerRef)

  function FirstController(owners: seq<OwnerRef>): Ref {
    if owners == [] then NoRef
    else if owners[0].controller then Ref(owners[0])
    else FirstController(owners[1..])
  }

  /** The controlling owner, or the first one when none is marked. */
  function ControllerRef(w: Workload): Ref {
    var marked := FirstController(w.owners);
    if marked.Ref? then marked else if w.owners != [] then Ref(w.owners[0]) else NoRef
  }

  /** The owner among the evaluated workloads: by UID if the kinds agree, else by
      kind and name if no UIDs contradict that. */
  function Parent(x: Index, w: Workload): Found {
    match ControllerRef(w)
    case NoRef => Nobody
    case Ref(o) =>
      if o.uid != "" && o.uid in x.byUid && EqualFold(x.byUid[o.uid].kind, o.kind) then Someone(x.byUid[o.uid])
      else
        var key := WorkloadKey(o.kind, o.name);
        if key in x.byKindName && (o.uid == "" || x.byKindName[key].uid == "" || o.uid == x.byKindName[key].uid)
        then Someone(x.byKindName[key])
        else Nobody
  }

  predicate NoController(owners: seq<OwnerRef>) {
    forall i :: 0 <= i < |owners| ==> !owners[i].controller
  }

  lemma NoControllerBefore(owners: seq<OwnerRef>, i: nat)
    requires 0 < i <= |owners|
    ensures NoController(owners[..i]) <==> !owners[0].controller && NoController(owners[1..][..i - 1])
  {
    var rest := owners[1..][..i - 1];
    assert owners[..i] == [owners[0]] + rest;
    assert forall k :: 0 <= k < i - 1 ==> ([owners[0]] + rest)[k + 1] == rest[k];
  }

  lemma {:induction false} FirstControllerIs(owners: seq<OwnerRef>, o: OwnerRef)
    ensures FirstController(owners) == Ref(o)
       <==> exists i :: 0 <= i < |owners| && owners[i] == o && o.controller && NoController(owners[..i])
    ensures FirstController(owners) == NoRef <==> NoController(owners)
  {
    if owners != [] {
      var rest := owners[1..];
      FirstControllerIs(rest, o);
      if owners[0].controller {
        assert owners[..0] == [];
        assert forall i :: 0 < i < |owners| ==> owners[..i][0] == owners[0];
      } else {
        assert forall i :: 0 <= i < |rest| ==> owners[i + 1] == rest[i];
        if i :| 0 <= i < |rest| && rest[i] == o && o.controller && NoController(rest[..i]) {
          NoControllerBefore(owners, i + 1);
          assert owners[i + 1] == o;
        }
        if i :| 0 <= i < |owners| && owners[i] == o && o.controller && NoController(owners[..i]) {
          assert i > 0;
          NoControllerBefore(owners, i);
          assert rest[i - 1] == o;
        }
      }
    }
  }

  /** A controller among the owners is preferred to the first owner: the reference
      followed is the first one marked, and the first of all only when none is. */
  lemma ControllerIsPreferred(w: Workload, o: OwnerRef)
    ensures ControllerRef(w) == Ref(o)
       <==> || (exists i :: 0 <= i < |w.owners| && w.owners[i] == o && o.controller && NoController(w.owners[..i]))
            || (NoController(w.owners) && w.owners != [] && w.owners[0] == o)
    ensures ControllerRef(w) == NoRef <==> w.owners == []
  {
    FirstControllerIs(w.owners, o);
    var marked := FirstController(w.owners);
    if marked.Ref? {
      FirstControllerIs(w.owners, marked.ref);
      var i :| 0 <= i < |w.owners| && w.owners[i] == marked.ref && marked.ref.controller && NoController(w.owners[..i]);
    }
  }

  predicate UniqueUids(ws: seq<Workload>) {
    forall i, j :: 0 <= i < j < |ws| && ws[i].uid != "" ==> ws[i].uid != ws[j].uid
  }

  lemma {:induction false} UidFinds(ws: seq<Workload>, uid: string)
    requires UniqueUids(ws) && uid != ""
    ensures uid in IndexOf(ws).byUid <==> exists p :: p in ws && p.uid == uid
    ensures uid in IndexOf(ws).byUid ==> IndexOf(ws).byUid[uid].uid == uid
    ensures forall p :: p in ws && p.uid == uid ==> uid in IndexOf(ws).byUid && IndexOf(ws).byUid[uid] == p
  {
    if ws != [] {
      var n := |ws| - 1;
      UidFinds(ws[..n], uid);
      assert forall p :: p in ws <==> p in ws[..n] || p == ws[n];
      forall p | p in ws[..n] && p.uid == uid ensures ws[n].uid != uid {
        var i :| 0 <= i < n && ws[..n][i] == p;
        assert ws[i] == p;
      }
    }
  }

  /** The reference points at the workload by its UID. */
  predicate OwnsByUid(o: OwnerRef, p: Workload) {
    o.uid != "" && p.uid == o.uid && SameLetters(ToLower(p.kind), ToLower(o.kind))
  }

  /** It points at it by kind and name, and no UIDs contradict that. */
  predicate OwnsByName(o: OwnerRef, p: Workload) {
    KeyOf(p) == WorkloadKey(o.kind, o.name) && (o.uid == "" || p.uid == "" || p.uid == o.uid)
  }

  /** Who the parent is: the workload the reference names by UID and kind, and only
      when there is none the one it names by kind and name. */
  lemma ParentIff(ws: seq<Workload>, w: Workload, o: OwnerRef, p: Workload)
    requires UniqueKeys(ws) && UniqueUids(ws) && ControllerRef(w) == Ref(o)
    ensures Parent(IndexOf(ws), w) == Someone(p)
       <==> p in ws && (OwnsByUid(o, p) || (OwnsByName(o, p) && forall q :: q in ws ==> !OwnsByUid(o, q)))
  {
    var x, key := IndexOf(ws), WorkloadKey(o.kind, o.name);
    IndexHolds(ws);
    if o.uid != "" { UidFinds(ws, o.uid); }
    forall q | q in ws ensures EqualFold(q.kind, o.kind) <==> SameLetters(ToLower(q.kind), ToLower(o.kind)) {
      FoldIsSameLetters(q.kind, o.kind);
    }
    forall q | q in ws ensures KeyOf(q) in x.byKindName && x.byKindName[KeyOf(q)] == q {
      var i :| 0 <= i < |ws| && ws[i] == q;
      IndexFinds(ws, i);
    }
  }

  /** The later of two workloads under one key or UID is the one found. */
  lemma {:induction false} IndexIsLast(ws: seq<Workload>, i: nat)
    requires i < |ws|
    ensures (forall j :: i < j < |ws| ==> KeyOf(ws[j]) != KeyOf(ws[i])) ==>
      KeyOf(ws[i]) in IndexOf(ws).byKindName && IndexOf(ws).byKindName[KeyOf(ws[i])] == ws[i]
    ensures ws[i].uid != "" && (forall j :: i < j < |ws| ==> ws[j].uid != ws[i].uid) ==>
      ws[i].uid in IndexOf(ws).byUid && IndexOf(ws).byUid[ws[i].uid] == ws[i]
  {
    var n := |ws| - 1;
    if i < n {
      IndexIsLast(ws[..n], i);
      assert forall j :: 0 <= j < n ==> ws[..n][j] == ws[j];
    }
  }

  function Keys(x: Index): set<string> {
    (set k | k in x.byKindName :: KeyOf(x.byKindName[k])) + (set u | u in x.byUid :: KeyOf(x.byUid[u]))
  }

  lemma ParentIsKnown(x: Index, w: Workload)
    ensures Parent(x, w).Someone? ==> KeyOf(Parent(x, w).w) in Keys(x)
  {
  }

  /** The chain of owners until there is none or one is met again. */
  function Ancestors(x: Index, w: Workload, visited: set<string>): seq<Workload>
    decreases Keys(x) - visited
  {
    var p := Parent(x, w);
    if p.Nobody? || KeyOf(p.w) in visited then []
    else
      ParentIsKnown(x, w);
      [p.w] + Ancestors(x, p.w, visited + {KeyOf(p.w)})
  }

  /** getEvaluatedAncestors; it ends on cyclic ownership as well. */
  method GetEvaluatedAncestors(x: Index, w: Workload) returns (ancestors: seq<Workload>)
    ensures ancestors == Ancestors(x, w, {})
  {
    ancestors := [];
    var visited := {};
    var curr := w;
    while true
      invariant ancestors + Ancestors(x, curr, visited) == Ancestors(x, w, {})
      decreases Keys(x) - visited
    {
      var parent := Parent(x, curr);
      if parent.Nobody? {
        break;
      }
      var parentKey := KeyOf(parent.w);
      if parentKey in visited {
        break;
      }
      ParentIsKnown(x, curr);
      assert Ancestors(x, curr, visited) == [parent.w] + Ancestors(x, parent.w, visited + {parentKey});
      visited := visited + {parentKey};
      ancestors := ancestors + [parent.w];
      curr := parent.w;
    }
  }

  // --------------------------------------------------------------- the reduction

  predicate MadeOn(findings: seq<Finding>, key: string, signature: string) {
    exists f :: f in findings && OwnerKey(f) == key && f.signature == signature
  }

  /** Made on an ancestor as well. */
  predicate Duplicate(x: Index, findings: seq<Finding>, f: Finding) {
    && OwnerKey(f) in x.byKindName
    && exists a :: a in Ancestors(x, x.byKindName[OwnerKey(f)], {}) && MadeOn(findings, KeyOf(a), f.signature)
  }

  function Survivors(x: Index, all: seq<Finding>, findings: seq<Finding>): seq<Finding> {
    if findings == [] then []
    else
      var n := |findings| - 1;
      Survivors(x, all, findings[..n]) + if Duplicate(x, all, findings[n]) then [] else [findings[n]]
  }

  lemma {:induction false} SurvivorsAre(x: Index, all: seq<Finding>, findings: seq<Finding>, f: Finding)
    ensures f in Survivors(x, all, findings) <==> f in findings && !Duplicate(x, all, f)
  {
    if findings != [] {
      var n := |findings| - 1;
      SurvivorsAre(x, all, findings[..n], f);
      assert findings == findings[..n] + [findings[n]];
    }
  }

  /** The survivors are the findings that are no duplicates, each in its place. */
  lemma {:induction false} SurvivorsInPlace(x: Index, all: seq<Finding>, findings: seq<Finding>) returns (at: seq<nat>)
    ensures Ascending(at, |findings|) && |at| == |Survivors(x, all, findings)|
    ensures forall k :: 0 <= k < |at| ==> Survivors(x, all, findings)[k] == findings[at[k]]
    ensures forall i: nat :: i < |findings| ==> (i in at <==> !Duplicate(x, all, findings[i]))
  {
    at := [];
    if findings != [] {
      var n := |findings| - 1;
      var front := findings[..n];
      at := SurvivorsInPlace(x, all, front);
      AscendingMore(at, n);
      assert forall i :: 0 <= i < n ==> front[i] == findings[i];
      if !Duplicate(x, all, findings[n]) { at := at + [n]; }
    }
  }

  lemma OneMoreFinding(findings: seq<Finding>, i: nat, key: string, signature: string)
    requires i < |findings|
    ensures (MadeOn(findings[..i + 1], key, signature)
             <==> MadeOn(findings[..i], key, signature) || (key == OwnerKey(findings[i]) && signature == findings[i].signature))
  {
    assert findings[..i + 1] == findings[..i] + [findings[i]];
    if MadeOn(findings[..i], key, signature) {
      var f :| f in findings[..i] && OwnerKey(f) == key && f.signature == signature;
      assert f in findings[..i + 1];
    }
    if key == OwnerKey(findings[i]) && signature == findings[i].signature {
      assert findings[i] in findings[..i + 1];
    }
  }

  predicate Recorded(found: map<string, set<string>>, key: string, signature: string) {
    key in found && signature in found[key]
  }

  method SignaturesByWorkload(findings: seq<Finding>) returns (found: map<string, set<string>>)
    ensures forall key, sig :: Recorded(found, key, sig) <==> MadeOn(findings, key, sig)
  {
    found := map[];
    for i := 0 to |findings|
      invariant forall key, sig :: Recorded(found, key, sig) <==> MadeOn(findings[..i], key, sig)
    {
      var f := findings[i];
      var key := OwnerKey(f);
      ghost var before := found;
      found := found[key := (if key in found then found[key] else {}) + {f.signature}];
      forall k, sig ensures Recorded(found, k, sig) <==> MadeOn(findings[..i + 1], k, sig) {
        OneMoreFinding(findings, i, k, sig);
        assert Recorded(before, k, sig) <==> MadeOn(findings[..i], k, sig);
      }
    }
    assert findings[..|findings|] == findings;
  }

  lemma DuplicateIsRecorded(x: Index, findings: seq<Finding>, found: map<string, set<string>>, f: Finding)
    requires forall key, sig :: Recorded(found, key, sig) <==> MadeOn(findings, key, sig)
    requires OwnerKey(f) in x.byKindName
    ensures Duplicate(x, findings, f)
       <==> exists a :: a in Ancestors(x, x.byKindName[OwnerKey(f)], {}) && Recorded(found, KeyOf(a), f.signature)
  {
  }

  /** The inner loop. */
  method RecordedOnOne(found: map<string, set<string>>, ancestors: seq<Workload>, signature: string) returns (isDuplicate: bool)
    ensures isDuplicate <==> exists a :: a in ancestors && Recorded(found, KeyOf(a), signature)
  {
    isDuplicate := false;
    for j := 0 to |ancestors|
      invariant forall a :: a in ancestors[..j] ==> !Recorded(found, KeyOf(a), signature)
    {
      var ancestorKey := KeyOf(ancestors[j]);
      if ancestorKey in found && signature in found[ancestorKey] {
        assert ancestors[j] in ancestors;
        return true;
      }
    }
    assert ancestors[..|ancestors|] == ancestors;
  }

  method DeduplicateWorkloadFindings(findings: seq<Finding>, workloads: seq<Workload>) returns (deduped: seq<Finding>)
    ensures deduped == Survivors(IndexOf(workloads), findings, findings)
  {
    if |findings| == 0 {
      return findings;
    }
    var x := BuildIndex(workloads);
    var found := SignaturesByWorkload(findings);
    deduped := [];
    for i := 0 to |findings|
      invariant deduped == Survivors(x, findings, findings[..i])
    {
      var f := findings[i];
      assert findings[..i + 1][..i] == findings[..i];
      if OwnerKey(f) !in x.byKindName {
        deduped := deduped + [f];
        continue;
      }
      var ancestors := GetEvaluatedAncestors(x, x.byKindName[OwnerKey(f)]);
      var isDuplicate := RecordedOnOne(found, ancestors, f.signature);
      DuplicateIsRecorded(x, findings, found, f);
      if !isDuplicate {
        deduped := deduped + [f];
      }
    }
    assert findings[..|findings|] == findings;
  }

  // ------------------------------------------------------------------ loss-free

  predicate HasKey(ws: seq<Workload>, key: string) {
    exists w :: w in ws && KeyOf(w) == key
  }

  predicate OwnedByNext(x: Index, chain: seq<Workload>, i: nat)
    requires i + 1 < |chain|
  {
    Parent(x, chain[i]) == Someone(chain[i + 1])
  }

  /** Each workload's owner is the next one. */
  ghost predicate IsChain(x: Index, chain: seq<Workload>) {
    forall i :: 0 <= i < |chain| - 1 ==> OwnedByNext(x, chain, i)
  }

  /** Owners lead from the workload back to its key. */
  ghost predicate InACircle(x: Index, w: Workload) {
    exists chain :: LeadsBack(x, w, chain)
  }

  ghost predicate LeadsBack(x: Index, w: Workload, chain: seq<Workload>) {
    IsChain(x, chain) && |chain| >= 2 && chain[0] == w && KeyOf(chain[|chain| - 1]) == KeyOf(w)
  }

  /** Ownership has no circles. */
  ghost predicate Acyclic(x: Index, ws: seq<Workload>) {
    forall w :: w in ws ==> !InACircle(x, w)
  }

  /** The code's walk meets the workload among its own ancestors. */
  predicate MeetsItself(x: Index, w: Workload) {
    HasKey(Ancestors(x, w, {}), KeyOf(w))
  }

  lemma {:induction false} AncestorsAreAChain(x: Index, w: Workload, visited: set<string>)
    ensures IsChain(x, [w] + Ancestors(x, w, visited))
    decreases Keys(x) - visited
  {
    var p := Parent(x, w);
    if p.Someone? && KeyOf(p.w) !in visited {
      ParentIsKnown(x, w);
      AncestorsAreAChain(x, p.w, visited + {KeyOf(p.w)});
      var rest := [p.w] + Ancestors(x, p.w, visited + {KeyOf(p.w)});
      var chain := [w] + Ancestors(x, w, visited);
      assert chain == [w] + rest;
      forall i | 0 <= i < |chain| - 1 ensures OwnedByNext(x, chain, i) {
        if i > 0 { assert OwnedByNext(x, rest, i - 1); }
      }
    }
  }

  /** What the walk meets again is in a circle. */
  lemma MetIsCircle(x: Index, w: Workload)
    requires MeetsItself(x, w)
    ensures InACircle(x, w)
  {
    var a :| a in Ancestors(x, w, {}) && KeyOf(a) == KeyOf(w);
    AncestorsAreAChain(x, w, {});
    var chain := ChainTo(x, w, Ancestors(x, w, {}), a);
    assert LeadsBack(x, w, chain);
  }

  lemma ChainTo(x: Index, w: Workload, owners: seq<Workload>, a: Workload) returns (chain: seq<Workload>)
    requires IsChain(x, [w] + owners) && a in owners
    ensures IsChain(x, chain) && |chain| >= 2 && chain[0] == w && chain[|chain| - 1] == a
  {
    var i :| 0 <= i < |owners| && owners[i] == a;
    ChainPrefix(x, [w] + owners, i + 2);
    chain := ([w] + owners)[..i + 2];
  }

  lemma ChainPrefix(x: Index, chain: seq<Workload>, n: nat)
    requires IsChain(x, chain) && n <= |chain|
    ensures IsChain(x, chain[..n])
  {
    forall i | 0 <= i < n - 1 ensures OwnedByNext(x, chain[..n], i) {
      assert OwnedByNext(x, chain, i);
    }
  }

  /** The walk stops at no owner it has not met. */
  lemma {:induction false} AncestorsAreClosed(x: Index, w: Workload, visited: set<string>, a: Workload)
    requires (a == w || a in Ancestors(x, w, visited)) && Parent(x, a).Someone?
    ensures var key := KeyOf(Parent(x, a).w); key in visited || HasKey(Ancestors(x, w, visited), key)
    decreases Keys(x) - visited
  {
    var p := Parent(x, w);
    if p.Someone? && KeyOf(p.w) !in visited {
      ParentIsKnown(x, w);
      var rest := Ancestors(x, p.w, visited + {KeyOf(p.w)});
      assert p.w in Ancestors(x, w, visited);
      assert forall b :: b in rest ==> b in Ancestors(x, w, visited);
      if a == p.w || a in rest {
        AncestorsAreClosed(x, p.w, visited + {KeyOf(p.w)}, a);
      }
    }
  }

  /** So whatever a chain of owners reaches, the walk meets. */
  lemma {:induction false} ChainIsMet(ws: seq<Workload>, chain: seq<Workload>, i: nat)
    requires UniqueKeys(ws) && IsChain(IndexOf(ws), chain) && 0 < i < |chain|
    ensures HasKey(Ancestors(IndexOf(ws), chain[0], {}), KeyOf(chain[i]))
    decreases i
  {
    var x, w := IndexOf(ws), chain[0];
    assert OwnedByNext(x, chain, i - 1);
    if i == 1 {
      AncestorsAreClosed(x, w, {}, w);
    } else {
      ChainIsMet(ws, chain, i - 1);
      var a :| a in Ancestors(x, w, {}) && KeyOf(a) == KeyOf(chain[i - 1]);
      AncestorsAreWorkloads(ws, w, {});
      assert OwnedByNext(x, chain, i - 2);
      ParentIsWorkload(ws, chain[i - 2]);
      KeysAreUnique(ws, a, chain[i - 1]);
      AncestorsAreClosed(x, w, {}, a);
    }
  }

  lemma KeysAreUnique(ws: seq<Workload>, a: Workload, b: Workload)
    requires UniqueKeys(ws) && a in ws && b in ws && KeyOf(a) == KeyOf(b)
    ensures a == b
  {
    var i, j :| 0 <= i < |ws| && ws[i] == a && 0 <= j < |ws| && ws[j] == b;
    assert KeyOf(ws[i]) == KeyOf(ws[j]);
  }

  /** The walk meets a workload among its own ancestors exactly when owners lead
      from it back to its key. */
  lemma CircleIffMet(ws: seq<Workload>, w: Workload)
    requires UniqueKeys(ws)
    ensures InACircle(IndexOf(ws), w) <==> MeetsItself(IndexOf(ws), w)
  {
    var x := IndexOf(ws);
    if MeetsItself(x, w) { MetIsCircle(x, w); }
    if InACircle(x, w) {
      var chain :| LeadsBack(x, w, chain);
      ChainIsMet(ws, chain, |chain| - 1);
    }
  }

  /** Marking a key nobody has changes nothing. */
  lemma {:induction false} UnmetKeyIsIrrelevant(x: Index, w: Workload, visited: set<string>, key: string)
    requires !HasKey(Ancestors(x, w, visited), key)
    ensures Ancestors(x, w, visited + {key}) == Ancestors(x, w, visited)
    decreases Keys(x) - visited
  {
    var p := Parent(x, w);
    if p.Someone? && KeyOf(p.w) !in visited {
      ParentIsKnown(x, w);
      var rest := Ancestors(x, p.w, visited + {KeyOf(p.w)});
      assert p.w in Ancestors(x, w, visited);
      assert forall a :: a in rest ==> a in Ancestors(x, w, visited);
      UnmetKeyIsIrrelevant(x, p.w, visited + {KeyOf(p.w)}, key);
      assert visited + {KeyOf(p.w)} + {key} == visited + {key} + {KeyOf(p.w)};
    }
  }

  lemma {:induction false} AncestorsAreWorkloads(ws: seq<Workload>, w: Workload, visited: set<string>)
    ensures forall a :: a in Ancestors(IndexOf(ws), w, visited) ==> a in ws
    decreases Keys(IndexOf(ws)) - visited
  {
    var x := IndexOf(ws);
    var p := Parent(x, w);
    IndexHolds(ws);
    if p.Someone? && KeyOf(p.w) !in visited {
      ParentIsKnown(x, w);
      AncestorsAreWorkloads(ws, p.w, visited + {KeyOf(p.w)});
    }
  }

  lemma ParentIsWorkload(ws: seq<Workload>, w: Workload)
    ensures Parent(IndexOf(ws), w).Someone? ==> Parent(IndexOf(ws), w).w in ws
  {
    IndexHolds(ws);
  }

  /** Without cycles the chain goes on from the parent as from anywhere. */
  lemma ChainFromParent(x: Index, ws: seq<Workload>, w: Workload)
    requires Acyclic(x, ws) && Parent(x, w).Someone? && Parent(x, w).w in ws
    ensures Ancestors(x, w, {}) == [Parent(x, w).w] + Ancestors(x, Parent(x, w).w, {})
  {
    var p := Parent(x, w).w;
    assert {} + {KeyOf(p)} == {KeyOf(p)};
    if MeetsItself(x, p) { MetIsCircle(x, p); }
    UnmetKeyIsIrrelevant(x, p, {}, KeyOf(p));
  }

  /** Without cycles the ancestors of an ancestor are the ones further up. */
  lemma {:induction false} AncestorsOfAncestor(ws: seq<Workload>, w: Workload, i: nat)
    requires var x := IndexOf(ws); Acyclic(x, ws) && i < |Ancestors(x, w, {})|
    ensures var chain := Ancestors(IndexOf(ws), w, {}); Ancestors(IndexOf(ws), chain[i], {}) == chain[i + 1..]
    decreases i
  {
    var x := IndexOf(ws);
    var chain := Ancestors(x, w, {});
    ParentIsWorkload(ws, w);
    ChainFromParent(x, ws, w);
    if i > 0 {
      AncestorsOfAncestor(ws, chain[0], i - 1);
      assert chain[i + 1..] == Ancestors(x, chain[0], {})[i..];
    }
  }

  /** The topmost ancestor with the finding. */
  lemma {:induction false} Topmost(findings: seq<Finding>, chain: seq<Workload>, signature: string) returns (i: nat)
    requires exists a :: a in chain && MadeOn(findings, KeyOf(a), signature)
    ensures i < |chain| && MadeOn(findings, KeyOf(chain[i]), signature)
    ensures forall a :: a in chain[i + 1..] ==> !MadeOn(findings, KeyOf(a), signature)
  {
    if exists a :: a in chain[1..] && MadeOn(findings, KeyOf(a), signature) {
      var j := Topmost(findings, chain[1..], signature);
      i := j + 1;
      assert chain[i + 1..] == chain[1..][j + 1..];
    } else {
      i := 0;
    }
  }

  /** Nothing is lost: a finding dropped as a duplicate has a surviving finding
      with its signature on an ancestor. */
  ghost predicate NothingLost(ws: seq<Workload>, findings: seq<Finding>) {
    var x := IndexOf(ws);
    forall f :: f in findings && Duplicate(x, findings, f) ==> exists g :: Represents(x, findings, f, g)
  }

  predicate Represents(x: Index, findings: seq<Finding>, f: Finding, g: Finding) {
    && g in findings && !Duplicate(x, findings, g) && g.signature == f.signature
    && OwnerKey(f) in x.byKindName && HasKey(Ancestors(x, x.byKindName[OwnerKey(f)], {}), OwnerKey(g))
  }

  /** The finding on the topmost ancestor that has it survives. */
  lemma TopmostSurvives(ws: seq<Workload>, findings: seq<Finding>, w: Workload, i: nat, g: Finding)
    requires UniqueKeys(ws) && Acyclic(IndexOf(ws), ws) && i < |Ancestors(IndexOf(ws), w, {})|
    requires var chain := Ancestors(IndexOf(ws), w, {});
             && OwnerKey(g) == KeyOf(chain[i])
             && forall a :: a in chain[i + 1..] ==> !MadeOn(findings, KeyOf(a), g.signature)
    ensures !Duplicate(IndexOf(ws), findings, g)
  {
    var chain := Ancestors(IndexOf(ws), w, {});
    AncestorsAreWorkloads(ws, w, {});
    assert chain[i] in chain;
    var at :| 0 <= at < |ws| && ws[at] == chain[i];
    IndexFinds(ws, at);
    AncestorsOfAncestor(ws, w, i);
  }

  lemma AcyclicLosesNothing(ws: seq<Workload>, findings: seq<Finding>)
    requires UniqueKeys(ws) && Acyclic(IndexOf(ws), ws)
    ensures NothingLost(ws, findings)
  {
    var x := IndexOf(ws);
    forall f | f in findings && Duplicate(x, findings, f) ensures exists g :: Represents(x, findings, f, g) {
      var w := x.byKindName[OwnerKey(f)];
      var chain := Ancestors(x, w, {});
      var i := Topmost(findings, chain, f.signature);
      var g :| g in findings && OwnerKey(g) == KeyOf(chain[i]) && g.signature == f.signature;
      TopmostSurvives(ws, findings, w, i, g);
      assert chain[i] in chain;
      assert Represents(x, findings, f, g);
    }
  }

  lemma MetAgain(x: Index, w: Workload, f: Finding)
    requires OwnerKey(f) == KeyOf(w) && KeyOf(w) in x.byKindName && x.byKindName[KeyOf(w)] == w
    requires MeetsItself(x, w)
    ensures Duplicate(x, [f], f)
  {
    var a :| a in Ancestors(x, w, {}) && KeyOf(a) == KeyOf(w);
    assert f in [f] && MadeOn([f], KeyOf(a), f.signature);
  }

  lemma OnlyFindingLost(ws: seq<Workload>, f: Finding)
    requires Duplicate(IndexOf(ws), [f], f)
    ensures !NothingLost(ws, [f])
  {
    assert f in [f];
    assert forall g :: !Represents(IndexOf(ws), [f], f, g);
  }

  /** In a circle everything is lost: the walk meets the workload among its own
      ancestors, and makes each of its findings a duplicate of itself. */
  lemma CycleLosesFindings(ws: seq<Workload>, w: Workload, f: Finding)
    requires UniqueKeys(ws) && w in ws && InACircle(IndexOf(ws), w)
    requires OwnerKey(f) == KeyOf(w)
    ensures !NothingLost(ws, [f])
  {
    var at :| 0 <= at < |ws| && ws[at] == w;
    IndexFinds(ws, at);
    CircleIffMet(ws, w);
    MetAgain(IndexOf(ws), w, f);
    OnlyFindingLost(ws, f);
  }

  /** And there are such workloads: two that name each other as owners. */
  lemma OwnersInACircle(a: Workload, b: Workload)
    requires KeyOf(a) != KeyOf(b) && a.uid == "" && b.uid == ""
    requires a.owners == [OwnerRef(b.kind, b.name, "", true)] && b.owners == [OwnerRef(a.kind, a.name, "", true)]
    ensures UniqueKeys([a, b]) && !Acyclic(IndexOf([a, b]), [a, b])
  {
    var ws := [a, b];
    var x := IndexOf(ws);
    IndexFinds(ws, 0);
    IndexFinds(ws, 1);
    assert Parent(x, a) == Someone(b) && Parent(x, b) == Someone(a);
    var chain := [a, b, a];
    assert OwnedByNext(x, chain, 0) && OwnedByNext(x, chain, 1);
    assert LeadsBack(x, a, chain);
    assert a in ws;
  }

  /** So the reduction is loss-free for all findings exactly when ownership is
      acyclic. */
  lemma LossFreeIffAcyclic(ws: seq<Workload>)
    requires UniqueKeys(ws)
    ensures (forall findings :: NothingLost(ws, findings)) <==> Acyclic(IndexOf(ws), ws)
  {
    if Acyclic(IndexOf(ws), ws) {
      forall findings ensures NothingLost(ws, findings) { AcyclicLosesNothing(ws, findings); }
    } else {
      var w :| w in ws && InACircle(IndexOf(ws), w);
      CycleLosesFindings(ws, w, Finding(w.kind, w.name, ""));
    }
  }
}
