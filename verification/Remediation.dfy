/** apply_remediation's account of the controls asked for: no control vanishes,
    and each (resource, control) pair is reported once, at its worst. */
module Remediation {
  import opened Orders
  import opened Sequences
  import opened Texts
  import opened Worst

  /** Control IDs are compared without surrounding blanks and without case. */
  function Normalize(id: string): string {
    ToUpper(TrimSpace(id))
  }

  // ---------------------------------------------------------- unaddressed controls

  /** The reasons given, without their wording. */
  datatype Reason =
    | Text(text: string)
    | CouldNotEvaluate
    | NotInReport
    | MissingTypes(reason: Reason, types: seq<string>)
    | NotRendered(message: string)

  datatype Unfixed = Unfixed(controlId: string, controlName: string, reason: Reason)

  datatype NotEvaluated = NotEvaluated(controlId: string, reason: string, missingTypes: seq<string>)

  function ReasonOf(ne: NotEvaluated): Reason {
    var reason := if ne.reason == "" then CouldNotEvaluate else Text(ne.reason);
    if ne.missingTypes == [] then reason else MissingTypes(reason, ne.missingTypes)
  }

  datatype OnRecord = NoReason | Because(reason: Reason)

  /** The reason on record for `key`; a later entry replaces an earlier one. */
  function ReasonFor(notEvaluated: seq<NotEvaluated>, key: string): OnRecord {
    if notEvaluated == [] then NoReason
    else
      var n := |notEvaluated| - 1;
      if Normalize(notEvaluated[n].controlId) == key then Because(ReasonOf(notEvaluated[n]))
      else ReasonFor(notEvaluated[..n], key)
  }

  predicate Covers(unfixed: seq<Unfixed>, key: string) {
    exists u :: u in unfixed && Normalize(u.controlId) == key
  }

  predicate Mentions(ids: seq<string>, key: string) {
    exists id :: id in ids && Normalize(id) == key
  }

  /** What the scan says of the controls. */
  datatype Scan = Scan(reported: set<string>, unfixed: seq<Unfixed>, notEvaluated: seq<NotEvaluated>)
  {
    /** Neither fixed, nor known to be unfixed, nor evaluated. */
    predicate Skipped(key: string) {
      key != "" && !Covers(unfixed, key) && (ReasonFor(notEvaluated, key).Because? || key !in reported)
    }
  }

  function EntryFor(id: string, scan: Scan): Unfixed {
    var reason := ReasonFor(scan.notEvaluated, Normalize(id));
    Unfixed(id, "", if reason.Because? then reason.reason else NotInReport)
  }

  /** The first mention of each skipped control, in the order asked for. */
  function Unaddressed(requested: seq<string>, scan: Scan): seq<Unfixed> {
    if requested == [] then []
    else
      var n := |requested| - 1;
      var key := Normalize(requested[n]);
      Unaddressed(requested[..n], scan)
      + if scan.Skipped(key) && !Mentions(requested[..n], key) then [EntryFor(requested[n], scan)] else []
  }

  /** What the loop has after these requests: the entries, and the keys emitted. */
  ghost predicate EmittedOk(out: seq<Unfixed>, emitted: set<string>, requested: seq<string>, scan: Scan) {
    && out == Unaddressed(requested, scan)
    && forall key :: key in emitted <==> Mentions(requested, key) && scan.Skipped(key)
  }

  /** One more request: an entry and a key if the control is skipped and new. */
  lemma EmitStep(out: seq<Unfixed>, emitted: set<string>, requested: seq<string>, i: nat, scan: Scan, key: string)
    requires i < |requested| && key == Normalize(requested[i]) && EmittedOk(out, emitted, requested[..i], scan)
    ensures if scan.Skipped(key) && key !in emitted
            then EmittedOk(out + [EntryFor(requested[i], scan)], emitted + {key}, requested[..i + 1], scan)
            else EmittedOk(out, emitted, requested[..i + 1], scan)
  {
    var before, now := requested[..i], requested[..i + 1];
    assert now[..i] == before && now[i] == requested[i] && now == before + [requested[i]];
    MentionsGrow(before, requested[i]);
    assert out + [] == out;
  }

  /** Whether a control is to be listed, and why. */
  method ReasonToList(key: string, scan: Scan, covered: set<string>, reasons: map<string, Reason>) returns (why: OnRecord)
    requires key in covered <==> Covers(scan.unfixed, key)
    requires ReasonFor(scan.notEvaluated, key) == if key in reasons then Because(reasons[key]) else NoReason
    ensures why == ListedBecause(scan, key)
  {
    if key == "" || key in covered {
      return NoReason;
    }
    if key in reasons {
      return Because(reasons[key]);
    }
    if key in scan.reported {
      return NoReason;
    }
    return Because(NotInReport);
  }

  function ListedBecause(scan: Scan, key: string): OnRecord {
    if !scan.Skipped(key) then NoReason
    else var reason := ReasonFor(scan.notEvaluated, key); if reason.Because? then reason else Because(NotInReport)
  }

  lemma EntryIsListed(id: string, scan: Scan, key: string)
    requires key == Normalize(id)
    ensures scan.Skipped(key) <==> ListedBecause(scan, key).Because?
    ensures scan.Skipped(key) ==> EntryFor(id, scan) == Unfixed(id, "", ListedBecause(scan, key).reason)
  {
  }

  /** One more request, with `why` it is to be listed. */
  lemma ListStep(out: seq<Unfixed>, emitted: set<string>, requested: seq<string>, i: nat, scan: Scan, key: string, why: OnRecord)
    requires i < |requested| && key == Normalize(requested[i]) && EmittedOk(out, emitted, requested[..i], scan)
    requires why == ListedBecause(scan, key)
    ensures if why.Because? && key !in emitted
            then EmittedOk(out + [Unfixed(requested[i], "", why.reason)], emitted + {key}, requested[..i + 1], scan)
            else EmittedOk(out, emitted, requested[..i + 1], scan)
  {
    EmitStep(out, emitted, requested, i, scan, key);
    EntryIsListed(requested[i], scan, key);
  }

  method UnaddressedControls(requested: seq<string>, scan: Scan) returns (out: seq<Unfixed>)
    ensures out == Unaddressed(requested, scan)
  {
    var covered := CoveredKeys(scan.unfixed);
    var reasons := ReasonsByKey(scan.notEvaluated);
    out := [];
    var emitted := {};
    for i := 0 to |requested|
      invariant EmittedOk(out, emitted, requested[..i], scan)
    {
      var id := requested[i];
      var key := Normalize(id);
      var why := ReasonToList(key, scan, covered, reasons);
      ListStep(out, emitted, requested, i, scan, key, why);
      if why.NoReason? || key in emitted {
        continue;
      }
      emitted := emitted + {key};
      out := out + [Unfixed(id, "", why.reason)];
    }
    assert requested[..|requested|] == requested;
  }

  lemma MentionsGrow(ids: seq<string>, id: string)
    ensures forall key :: Mentions(ids + [id], key) <==> Mentions(ids, key) || key == Normalize(id)
  {
    assert id in ids + [id];
    forall key | Mentions(ids, key) ensures Mentions(ids + [id], key) {
      var x :| x in ids && Normalize(x) == key;
      assert x in ids + [id];
    }
  }

  method CoveredKeys(unfixed: seq<Unfixed>) returns (covered: set<string>)
    ensures forall key :: key in covered <==> Covers(unfixed, key)
  {
    covered := {};
    for i := 0 to |unfixed|
      invariant forall key :: key in covered <==> Covers(unfixed[..i], key)
    {
      ghost var before := covered;
      covered := covered + {Normalize(unfixed[i].controlId)};
      assert unfixed[..i + 1] == unfixed[..i] + [unfixed[i]];
      CoversGrow(unfixed[..i], unfixed[i]);
    }
    assert unfixed[..|unfixed|] == unfixed;
  }

  lemma CoversGrow(unfixed: seq<Unfixed>, u: Unfixed)
    ensures forall key :: Covers(unfixed + [u], key) <==> Covers(unfixed, key) || key == Normalize(u.controlId)
  {
    assert u in unfixed + [u];
    forall key | Covers(unfixed, key) ensures Covers(unfixed + [u], key) {
      var x :| x in unfixed && Normalize(x.controlId) == key;
      assert x in unfixed + [u];
    }
  }

  method ReasonsByKey(notEvaluated: seq<NotEvaluated>) returns (reasons: map<string, Reason>)
    ensures forall key :: ReasonFor(notEvaluated, key) == if key in reasons then Because(reasons[key]) else NoReason
  {
    reasons := map[];
    for i := 0 to |notEvaluated|
      invariant forall key :: ReasonFor(notEvaluated[..i], key) == if key in reasons then Because(reasons[key]) else NoReason
    {
      var ne := notEvaluated[i];
      assert notEvaluated[..i + 1][..i] == notEvaluated[..i];
      var reason := Text(ne.reason);
      if ne.reason == "" {
        reason := CouldNotEvaluate;
      }
      if |ne.missingTypes| > 0 {
        reason := MissingTypes(reason, ne.missingTypes);
      }
      assert reason == ReasonOf(ne);
      reasons := reasons[Normalize(ne.controlId) := reason];
    }
    assert notEvaluated[..|notEvaluated|] == notEvaluated;
  }

  /** How often a control is listed, by its normalized ID. */
  function Listed(out: seq<Unfixed>, key: string): nat {
    if out == [] then 0
    else Listed(out[..|out| - 1], key) + if Normalize(out[|out| - 1].controlId) == key then 1 else 0
  }

  lemma ListedGrows(out: seq<Unfixed>, u: Unfixed, key: string)
    ensures Listed(out + [u], key) == Listed(out, key) + if Normalize(u.controlId) == key then 1 else 0
  {
    assert (out + [u])[..|out|] == out;
  }

  lemma OneMoreRequest(requested: seq<string>, id: string, scan: Scan, key: string)
    ensures Listed(Unaddressed(requested + [id], scan), key)
         == Listed(Unaddressed(requested, scan), key)
            + if key == Normalize(id) && scan.Skipped(key) && !Mentions(requested, key) then 1 else 0
  {
    assert (requested + [id])[..|requested|] == requested;
    var before := Unaddressed(requested, scan);
    assert before + [] == before;
    ListedGrows(before, EntryFor(id, scan), key);
  }

  /** A control is listed, once, exactly when it was asked for and skipped. */
  lemma {:induction false} ListedIfSkipped(requested: seq<string>, scan: Scan, key: string)
    ensures Listed(Unaddressed(requested, scan), key) == if Mentions(requested, key) && scan.Skipped(key) then 1 else 0
  {
    if requested != [] {
      var n := |requested| - 1;
      assert requested == requested[..n] + [requested[n]];
      ListedIfSkipped(requested[..n], scan, key);
      OneMoreRequest(requested[..n], requested[n], scan, key);
      MentionsGrow(requested[..n], requested[n]);
    }
  }

  /** No requested control vanishes: it is listed, once, if it was asked for, is not
      blank, is not among the unfixed ones, and the scan did not evaluate it, by its own
      word or for want of any result; and otherwise it is not listed. */
  lemma NoControlVanishes(requested: seq<string>, scan: Scan, key: string)
    ensures Listed(Unaddressed(requested, scan), key)
         == if && (exists id :: id in requested && Normalize(id) == key)
               && key != ""
               && (forall u :: u in scan.unfixed ==> Normalize(u.controlId) != key)
               && ((exists ne :: ne in scan.notEvaluated && Normalize(ne.controlId) == key) || key !in scan.reported)
            then 1 else 0
  {
    ListedIfSkipped(requested, scan, key);
    ReasonIff(scan.notEvaluated, key);
  }

  lemma {:induction false} ReasonIff(notEvaluated: seq<NotEvaluated>, key: string)
    ensures ReasonFor(notEvaluated, key).Because? <==> exists ne :: ne in notEvaluated && Normalize(ne.controlId) == key
  {
    if notEvaluated != [] {
      var n := |notEvaluated| - 1;
      ReasonIff(notEvaluated[..n], key);
      assert notEvaluated == notEvaluated[..n] + [notEvaluated[n]];
    }
  }

  /** The reason on record is the last one recorded. */
  lemma {:induction false} ReasonIsLast(notEvaluated: seq<NotEvaluated>, key: string, i: nat)
    requires i < |notEvaluated| && Normalize(notEvaluated[i].controlId) == key
    requires forall j :: i < j < |notEvaluated| ==> Normalize(notEvaluated[j].controlId) != key
    ensures ReasonFor(notEvaluated, key) == Because(ReasonOf(notEvaluated[i]))
  {
    var n := |notEvaluated| - 1;
    if i < n {
      ReasonIsLast(notEvaluated[..n], key, i);
    }
  }

  /** What an entry gives as the reason: the last one recorded for the control, with the
      missing types if there are any, and that the report has no result without one. */
  lemma EntryReason(requested: seq<string>, scan: Scan, u: Unfixed, key: string, i: nat)
    requires u in Unaddressed(requested, scan) && key == Normalize(u.controlId)
    ensures (forall ne :: ne in scan.notEvaluated ==> Normalize(ne.controlId) != key) ==> u.reason == NotInReport
    ensures i < |scan.notEvaluated| && Normalize(scan.notEvaluated[i].controlId) == key
            && (forall j :: i < j < |scan.notEvaluated| ==> Normalize(scan.notEvaluated[j].controlId) != key) ==>
      var ne := scan.notEvaluated[i];
      var said := if ne.reason == "" then CouldNotEvaluate else Text(ne.reason);
      u.reason == if ne.missingTypes == [] then said else MissingTypes(said, ne.missingTypes)
  {
    var k := EntriesAreFirstMentions(requested, scan, u);
    ReasonIff(scan.notEvaluated, key);
    if i < |scan.notEvaluated| && Normalize(scan.notEvaluated[i].controlId) == key
       && (forall j :: i < j < |scan.notEvaluated| ==> Normalize(scan.notEvaluated[j].controlId) != key) {
      ReasonIsLast(scan.notEvaluated, key, i);
    }
  }

  /** Control IDs are compared without blanks around them and without case. */
  lemma NormalizeFolds(before: string, word: string, after: string, name: string)
    requires AllBlank(IsSpaceChar, before) && AllBlank(IsSpaceChar, after) && IsTrim(IsSpaceChar, word)
    requires SameLetters(word, name) && HasNoLower(name)
    ensures Normalize(before + word + after) == name
  {
    TrimDrops(IsSpaceChar, before, word, after);
    UpperIsExact(word, name);
  }

  /** Every entry is the first mention of a skipped control, with the last reason
      on record. */
  lemma {:induction false} EntriesAreFirstMentions(requested: seq<string>, scan: Scan, u: Unfixed) returns (i: nat)
    requires u in Unaddressed(requested, scan)
    ensures i < |requested| && u == EntryFor(requested[i], scan) && u.controlId == requested[i]
    ensures scan.Skipped(Normalize(u.controlId)) && !Mentions(requested[..i], Normalize(u.controlId))
  {
    var n := |requested| - 1;
    if u in Unaddressed(requested[..n], scan) {
      i := EntriesAreFirstMentions(requested[..n], scan, u);
      assert requested[..n][..i] == requested[..i];
    } else {
      i := n;
    }
  }

  /** The entries come in the order asked for. */
  lemma {:induction false} EntriesInOrder(requested: seq<string>, scan: Scan) returns (at: seq<nat>)
    ensures Ascending(at, |requested|) && |at| == |Unaddressed(requested, scan)|
    ensures forall k :: 0 <= k < |at| ==> Unaddressed(requested, scan)[k].controlId == requested[at[k]]
  {
    at := [];
    if requested != [] {
      var n := |requested| - 1;
      var front := requested[..n];
      at := EntriesInOrder(front, scan);
      AscendingMore(at, n);
      assert forall i :: 0 <= i < n ==> front[i] == requested[i];
      if |Unaddressed(requested, scan)| > |Unaddressed(front, scan)| { at := at + [n]; }
    }
  }

  // ----------------------------------------------------------- remediation items

  datatype Classification = PatchAvailable | PartialPatch | Manual | NotEvaluatedClass
  {
    /** Worse is higher. */
    function Rank(): nat {
      match this
      case PatchAvailable => 0
      case PartialPatch => 1
      case Manual => 2
      case NotEvaluatedClass => 3
    }
  }

  datatype Outcome = Outcome(resourceId: string, controlId: string, controlName: string, filePath: string,
                             reason: string, fixed: bool, partial: bool)

  datatype ResourceRef = NoResource | ResourceRef(kind: string, name: string, namespace: string)

  datatype Evidence = Evidence(rules: seq<string>, truncated: bool)

  datatype Item = Item(resourceId: string, controlId: string, controlName: string, filePath: string,
                       resource: ResourceRef, evidence: Evidence, classification: Classification, reason: Reason)
  {
    function Pair(): (string, string) {
      (resourceId, Normalize(controlId))
    }

    function Key(): string {
      PairKey(resourceId, Normalize(controlId))
    }
  }

  function PairKey(resourceId: string, control: string): string {
    resourceId + "\0" + control
  }

  /** The report's resources, and its evidence under the same keys. */
  datatype Report = Report(resources: map<string, ResourceRef>, evidence: map<string, Evidence>)

  function ClassOf(o: Outcome, renderFailed: map<string, string>): Classification {
    if o.resourceId in renderFailed && (o.fixed || o.partial) then Manual
    else if o.fixed then PatchAvailable
    else if o.partial then PartialPatch
    else Manual
  }

  function OutcomeItem(o: Outcome, report: Report, renderFailed: map<string, string>): Item {
    var key := PairKey(o.resourceId, Normalize(o.controlId));
    Item(o.resourceId, o.controlId, o.controlName, o.filePath,
         if o.resourceId in report.resources then report.resources[o.resourceId] else NoResource,
         if key in report.evidence then report.evidence[key] else Evidence([], false),
         ClassOf(o, renderFailed),
         if o.resourceId in renderFailed && (o.fixed || o.partial)
         then NotRendered(renderFailed[o.resourceId]) else Text(o.reason))
  }

  function UnaddressedItem(u: Unfixed): Item {
    Item("", u.controlId, u.controlName, "", NoResource, Evidence([], false), NotEvaluatedClass, u.reason)
  }

  function OutcomeItems(outcomes: seq<Outcome>, report: Report, renderFailed: map<string, string>): (items: seq<Item>)
    ensures |items| == |outcomes|
    ensures forall i :: 0 <= i < |items| ==> items[i] == OutcomeItem(outcomes[i], report, renderFailed)
  {
    if outcomes == [] then []
    else OutcomeItems(outcomes[..|outcomes| - 1], report, renderFailed)
         + [OutcomeItem(outcomes[|outcomes| - 1], report, renderFailed)]
  }

  function UnaddressedItems(unaddressed: seq<Unfixed>): (items: seq<Item>)
    ensures |items| == |unaddressed|
    ensures forall i :: 0 <= i < |items| ==> items[i] == UnaddressedItem(unaddressed[i])
  {
    if unaddressed == [] then []
    else UnaddressedItems(unaddressed[..|unaddressed| - 1]) + [UnaddressedItem(unaddressed[|unaddressed| - 1])]
  }

  /** Everything recorded, in the order it is added. */
  function Records(outcomes: seq<Outcome>, unaddressed: seq<Unfixed>, report: Report, renderFailed: map<string, string>): seq<Item> {
    OutcomeItems(outcomes, report, renderFailed) + UnaddressedItems(unaddressed)
  }

  function KeyOf(e: Item): string {
    e.Key()
  }

  function RankOf(e: Item): nat {
    e.classification.Rank()
  }

  /** The worst record of each pair counts. */
  const WORST := Measure(KeyOf, RankOf)

  function ItemFields(e: Item): seq<string> {
    [e.resourceId, Normalize(e.controlId)]
  }

  predicate ItemLess(a: Item, b: Item) {
    FieldsLess(ItemFields(a), ItemFields(b))
  }

  lemma ItemLessIsStrict()
    ensures StrictOrder(ItemLess)
    ensures forall a, b :: ItemLess(a, b) || ItemLess(b, a) || ItemFields(a) == ItemFields(b)
  {
    FieldsLessIsTotalOrder();
  }

  /** The items: strictly sorted by resource and control, one per key. */
  ghost predicate IsListing(records: seq<Item>, items: seq<Item>) {
    StrictlySorted(ItemLess, items) && forall e :: e in items <==> Prevailing(WORST, records, e)
  }

  /** So the order in which the map yields them does not show. */
  lemma ItemsAreUnique(records: seq<Item>, xs: seq<Item>, ys: seq<Item>)
    requires IsListing(records, xs) && IsListing(records, ys)
    ensures xs == ys
  {
    ItemLessIsStrict();
    SortedIsUnique(ItemLess, xs, ys);
  }

  method ItemFor(o: Outcome, report: Report, renderFailed: map<string, string>) returns (item: Item)
    ensures item == OutcomeItem(o, report, renderFailed)
  {
    item := Item(o.resourceId, o.controlId, o.controlName, o.filePath, NoResource, Evidence([], false), Manual, Text(o.reason));
    if o.resourceId in report.resources {
      item := item.(resource := report.resources[o.resourceId]);
    }
    if o.resourceId in renderFailed && (o.fixed || o.partial) {
      item := item.(classification := Manual, reason := NotRendered(renderFailed[o.resourceId]));
    } else if o.fixed {
      item := item.(classification := PatchAvailable);
    } else if o.partial {
      item := item.(classification := PartialPatch);
    }
    var key := PairKey(o.resourceId, Normalize(o.controlId));
    if key in report.evidence {
      item := item.(evidence := report.evidence[key]);
    }
  }

  /** One map entry per key, the worst record winning. */
  method KeepOutcomes(outcomes: seq<Outcome>, report: Report, renderFailed: map<string, string>)
    returns (byKey: map<string, Item>)
    ensures KeptOk(WORST, OutcomeItems(outcomes, report, renderFailed), byKey)
  {
    ghost var records := OutcomeItems(outcomes, report, renderFailed);
    byKey := map[];
    for i := 0 to |outcomes|
      invariant KeptOk(WORST, records[..i], byKey)
    {
      var item := ItemFor(outcomes[i], report, renderFailed);
      AddNext(WORST, records, i, byKey);
      byKey := Add(WORST, byKey, item);
    }
    assert records[..|outcomes|] == records;
  }

  method KeepUnaddressed(ghost before: seq<Item>, kept: map<string, Item>, unaddressed: seq<Unfixed>)
    returns (byKey: map<string, Item>)
    requires KeptOk(WORST, before, kept)
    ensures KeptOk(WORST, before + UnaddressedItems(unaddressed), byKey)
  {
    ghost var items := UnaddressedItems(unaddressed);
    byKey := kept;
    assert before + items[..0] == before;
    for i := 0 to |unaddressed|
      invariant KeptOk(WORST, before + items[..i], byKey)
    {
      AddAfter(WORST, before, items, i, byKey);
      byKey := Add(WORST, byKey, UnaddressedItem(unaddressed[i]));
    }
    assert items[..|unaddressed|] == items;
  }

  method BuildRemediationItems(outcomes: seq<Outcome>, unaddressed: seq<Unfixed>, report: Report, renderFailed: map<string, string>)
    returns (items: seq<Item>)
    ensures IsListing(Records(outcomes, unaddressed, report, renderFailed), items)
  {
    var byKey := KeepOutcomes(outcomes, report, renderFailed);
    byKey := KeepUnaddressed(OutcomeItems(outcomes, report, renderFailed), byKey, unaddressed);
    var found := ValuesOf(WORST, byKey);
    KeptArePrevailing(Records(outcomes, unaddressed, report, renderFailed), byKey, found);
    ItemLessIsStrict();
    assert Comparable(ItemLess, found);
    items := Sort(ItemLess, found);
    SortSorts(ItemLess, found);
    SortKeeps(ItemLess, found);
  }

  lemma FieldsGiveKey(a: Item, b: Item)
    ensures ItemFields(a) == ItemFields(b) ==> a.Key() == b.Key()
  {
    var x, y := ItemFields(a), ItemFields(b);
    assert x == y ==> x[0] == y[0] && x[1] == y[1];
  }

  lemma KeptArePrevailing(records: seq<Item>, byKey: map<string, Item>, found: seq<Item>)
    requires KeptOk(WORST, records, byKey)
    requires forall e :: e in found <==> KeyOf(e) in byKey && byKey[KeyOf(e)] == e
    requires forall i, j :: 0 <= i < j < |found| ==> KeyOf(found[i]) != KeyOf(found[j])
    ensures forall e :: e in found <==> Prevailing(WORST, records, e)
    ensures forall i, j :: 0 <= i < j < |found| ==> ItemFields(found[i]) != ItemFields(found[j])
  {
    forall e | Prevailing(WORST, records, e) ensures e in found {
      var i: nat :| Prevails(WORST, records, i) && records[i] == e;
      assert records[i] in records;
      OnePrevails(WORST, records, e, byKey[e.Key()]);
    }
    forall i, j | 0 <= i < j < |found| ensures ItemFields(found[i]) != ItemFields(found[j]) {
      FieldsGiveKey(found[i], found[j]);
    }
  }

  // ------------------------------------------------------- what the items amount to

  /** Different pairs have different keys. */
  predicate Apart(records: seq<Item>) {
    forall i, j :: 0 <= i < |records| && 0 <= j < |records| && records[i].Key() == records[j].Key() ==>
      records[i].Pair() == records[j].Pair()
  }

  predicate OnceIn(items: seq<Item>, pair: (string, string)) {
    && (exists i :: 0 <= i < |items| && items[i].Pair() == pair)
    && (forall i, j :: 0 <= i < j < |items| && items[i].Pair() == pair ==> items[j].Pair() != pair)
  }

  /** Each recorded pair has exactly one item, if and only if no two pairs share a
      key. */
  lemma EachPairOnceIff(records: seq<Item>, items: seq<Item>)
    requires IsListing(records, items)
    ensures Apart(records) <==> forall r :: r in records ==> OnceIn(items, r.Pair())
  {
    if Apart(records) {
      forall r | r in records ensures OnceIn(items, r.Pair()) {
        PairOnce(records, items, r);
      }
    }
    if forall r :: r in records ==> OnceIn(items, r.Pair()) {
      forall i, j | 0 <= i < |records| && 0 <= j < |records| && records[i].Key() == records[j].Key()
        ensures records[i].Pair() == records[j].Pair()
      {
        assert records[i] in records && records[j] in records;
        SharedKeySharedPair(records, items, records[i], records[j]);
      }
    }
  }

  lemma PairOnce(records: seq<Item>, items: seq<Item>, r: Item)
    requires IsListing(records, items) && Apart(records) && r in records
    ensures OnceIn(items, r.Pair())
  {
    var e := SomePrevails(WORST, records, r);
    SamePair(records, e, r);
    var at :| 0 <= at < |items| && items[at] == e;
    assert items[at].Pair() == r.Pair();
    NoPairTwice(items);
  }

  lemma SamePair(records: seq<Item>, e: Item, r: Item)
    requires Apart(records) && Prevailing(WORST, records, e) && r in records && KeyOf(e) == KeyOf(r)
    ensures e.Pair() == r.Pair()
  {
    WorstIsKept(WORST, records, e);
    var i :| 0 <= i < |records| && records[i] == e;
    var j :| 0 <= j < |records| && records[j] == r;
    assert records[i].Key() == records[j].Key();
  }

  lemma NoPairTwice(items: seq<Item>)
    requires StrictlySorted(ItemLess, items)
    ensures forall i, j :: 0 <= i < j < |items| ==> items[i].Pair() != items[j].Pair()
  {
    FieldsLessIsTotalOrder();
    forall i, j | 0 <= i < j < |items| ensures items[i].Pair() != items[j].Pair() {
      assert FieldsLess(ItemFields(items[i]), ItemFields(items[j]));
      assert !FieldsLess(ItemFields(items[i]), ItemFields(items[i]));
      SamePairSameFields(items[i], items[j]);
    }
  }

  lemma SamePairSameFields(a: Item, b: Item)
    ensures a.Pair() == b.Pair() ==> ItemFields(a) == ItemFields(b)
  {
  }

  lemma SharedKeySharedPair(records: seq<Item>, items: seq<Item>, a: Item, b: Item)
    requires IsListing(records, items) && a.Key() == b.Key()
    requires OnceIn(items, a.Pair()) && OnceIn(items, b.Pair())
    ensures a.Pair() == b.Pair()
  {
    var i :| 0 <= i < |items| && items[i].Pair() == a.Pair();
    var j :| 0 <= j < |items| && items[j].Pair() == b.Pair();
    assert items[i] in items && items[j] in items;
    OnePrevails(WORST, records, items[i], items[j]);
  }

  predicate NulFree(s: string) {
    '\0' !in s
  }

  /** Control IDs without NUL keep the pairs apart, whatever the resource IDs. */
  lemma NulFreeIsApart(records: seq<Item>)
    requires forall r :: r in records ==> NulFree(Normalize(r.controlId))
    ensures Apart(records)
  {
    forall i, j | 0 <= i < |records| && 0 <= j < |records| && records[i].Key() == records[j].Key()
      ensures records[i].Pair() == records[j].Pair()
    {
      var a, b := records[i], records[j];
      assert a in records && b in records;
      PairOfKey(a.resourceId, Normalize(a.controlId), b.resourceId, Normalize(b.controlId));
    }
  }

  lemma PairOfKey(r: string, c: string, s: string, d: string)
    requires NulFree(c) && NulFree(d) && PairKey(r, c) == PairKey(s, d)
    ensures r == s && c == d
  {
    var k := PairKey(r, c);
    if |r| != |s| {
      LongerNeedsNul(r, c, s, d);
      LongerNeedsNul(s, d, r, c);
    } else {
      assert k[..|r|] == r && PairKey(s, d)[..|s|] == s;
      assert k[|r| + 1..] == c && PairKey(s, d)[|s| + 1..] == d;
    }
  }

  lemma LongerNeedsNul(r: string, c: string, s: string, d: string)
    requires PairKey(r, c) == PairKey(s, d)
    ensures |r| > |s| ==> !NulFree(d)
  {
    if |r| > |s| {
      assert PairKey(r, c)[|r|] == '\0' && PairKey(s, d)[|r|] == d[|r| - |s| - 1];
    }
  }

  /** So do resource IDs without NUL, whatever the control IDs: for two pairs to
      share a key takes a NUL in both a resource ID and a control ID. */
  lemma NulFreeResourcesAreApart(records: seq<Item>)
    requires forall r :: r in records ==> NulFree(r.resourceId)
    ensures Apart(records)
  {
    forall i, j | 0 <= i < |records| && 0 <= j < |records| && records[i].Key() == records[j].Key()
      ensures records[i].Pair() == records[j].Pair()
    {
      var a, b := records[i], records[j];
      assert a in records && b in records;
      PairOfPlainResource(a.resourceId, Normalize(a.controlId), b.resourceId, Normalize(b.controlId));
    }
  }

  lemma PairOfPlainResource(r: string, c: string, s: string, d: string)
    requires NulFree(r) && NulFree(s) && PairKey(r, c) == PairKey(s, d)
    ensures r == s && c == d
  {
    if |r| != |s| {
      LongerHasNul(r, c, s, d);
      LongerHasNul(s, d, r, c);
    } else {
      assert PairKey(r, c)[..|r|] == r && PairKey(s, d)[..|s|] == s;
      assert PairKey(r, c)[|r| + 1..] == c && PairKey(s, d)[|s| + 1..] == d;
    }
  }

  lemma LongerHasNul(r: string, c: string, s: string, d: string)
    requires PairKey(r, c) == PairKey(s, d)
    ensures |r| > |s| ==> !NulFree(r)
  {
    if |r| > |s| {
      assert PairKey(r, c)[|s|] == r[|s|] && PairKey(s, d)[|s|] == '\0';
    }
  }

  /** With a NUL in both, a NUL can be read as the end of either ID. */
  lemma NulMergesPairs(x: string, y: string, z: string)
    ensures PairKey(x + "\0" + y, z) == PairKey(x, y + "\0" + z)
    ensures (x + "\0" + y, z) != (x, y + "\0" + z)
  {
    assert (x + "\0" + y) + "\0" + z == x + "\0" + (y + "\0" + z);
    assert |x + "\0" + y| > |x|;
  }

  /** Two outcomes whose IDs hold a NUL: "x\0B" failed "C", and "x" failed "B\0C". */
  function NulOutcome(resourceId: string, controlId: string): Outcome {
    Outcome(resourceId, controlId, "", "", "", false, false)
  }

  lemma NormalizedAlready(id: string)
    requires id != [] && forall i :: 0 <= i < |id| ==> !IsSpaceChar(id[i]) && UpperChar(id[i]) == id[i]
    ensures Normalize(id) == id
  {
    assert TrimSpace(id) == id;
  }

  /** They are different pairs with one key, and no listing has an item for both. */
  lemma NulLosesAPair(report: Report, renderFailed: map<string, string>, items: seq<Item>)
    requires var records := Records([NulOutcome("x\0B", "C"), NulOutcome("x", "B\0C")], [], report, renderFailed);
             IsListing(records, items)
    ensures ("x\0B", "C") != ("x", "B\0C") && PairKey("x\0B", "C") == PairKey("x", "B\0C")
    ensures !(OnceIn(items, ("x\0B", "C")) && OnceIn(items, ("x", "B\0C")))
  {
    var outcomes := [NulOutcome("x\0B", "C"), NulOutcome("x", "B\0C")];
    var records := Records(outcomes, [], report, renderFailed);
    NormalizedAlready("C");
    NormalizedAlready("B\0C");
    NulMergesPairs("x", "B", "C");
    assert "x" + "\0" + "B" == "x\0B" && "B" + "\0" + "C" == "B\0C";
    var a, b := records[0], records[1];
    assert a == OutcomeItem(outcomes[0], report, renderFailed) && b == OutcomeItem(outcomes[1], report, renderFailed);
    assert a.Pair() == ("x\0B", "C") && b.Pair() == ("x", "B\0C") && a.Key() == b.Key();
    if OnceIn(items, a.Pair()) && OnceIn(items, b.Pair()) {
      SharedKeySharedPair(records, items, a, b);
    }
  }

  /** No item reads better than a record of its pair, and none is made up. */
  lemma WorstIsShown(records: seq<Item>, items: seq<Item>, e: Item)
    requires IsListing(records, items) && e in items
    ensures e in records
    ensures forall r :: r in records && r.Pair() == e.Pair() ==> r.classification.Rank() <= e.classification.Rank()
  {
    WorstIsKept(WORST, records, e);
    forall r | r in records && r.Pair() == e.Pair() ensures r.Key() == e.Key() {
      assert r.resourceId == e.Pair().0 && Normalize(r.controlId) == e.Pair().1;
    }
  }

  predicate OfPair(o: Outcome, pair: (string, string)) {
    (o.resourceId, Normalize(o.controlId)) == pair
  }

  /** An item offers a patch only if every outcome recorded for its pair was fixed,
      its resource could be rendered, and the control was evaluated. */
  lemma PatchIsTrusted(outcomes: seq<Outcome>, unaddressed: seq<Unfixed>, report: Report, renderFailed: map<string, string>,
                       items: seq<Item>, e: Item, o: Outcome)
    requires IsListing(Records(outcomes, unaddressed, report, renderFailed), items)
    requires e in items && e.classification == PatchAvailable
    requires o in outcomes && OfPair(o, e.Pair())
    ensures o.fixed && o.resourceId !in renderFailed
  {
    var records := Records(outcomes, unaddressed, report, renderFailed);
    var i :| 0 <= i < |outcomes| && outcomes[i] == o;
    RecordSource(outcomes, unaddressed, report, renderFailed, i);
    var r := records[i];
    RankOfPair(records, items, e, r);
  }

  /** Every record of the pair is an outcome that delivers a patch. */
  predicate AllDeliver(outcomes: seq<Outcome>, unaddressed: seq<Unfixed>, renderFailed: map<string, string>, pair: (string, string)) {
    && (forall o :: o in outcomes && OfPair(o, pair) ==> o.fixed && o.resourceId !in renderFailed)
    && (forall u :: u in unaddressed ==> ("", Normalize(u.controlId)) != pair)
  }

  /** Where a record comes from. */
  lemma RecordSource(outcomes: seq<Outcome>, unaddressed: seq<Unfixed>, report: Report, renderFailed: map<string, string>, i: nat)
    requires i < |outcomes| + |unaddressed|
    ensures var r := Records(outcomes, unaddressed, report, renderFailed)[i];
            if i < |outcomes|
            then && outcomes[i] in outcomes && OfPair(outcomes[i], r.Pair())
                 && (r.classification == PatchAvailable <==> outcomes[i].fixed && outcomes[i].resourceId !in renderFailed)
            else && unaddressed[i - |outcomes|] in unaddressed && ("", Normalize(unaddressed[i - |outcomes|].controlId)) == r.Pair()
                 && r.classification == NotEvaluatedClass
  {
    RecordAt(outcomes, unaddressed, report, renderFailed, i);
  }

  lemma RecordDelivers(outcomes: seq<Outcome>, unaddressed: seq<Unfixed>, report: Report, renderFailed: map<string, string>, r: Item)
    requires r in Records(outcomes, unaddressed, report, renderFailed)
    requires AllDeliver(outcomes, unaddressed, renderFailed, r.Pair())
    ensures r.classification == PatchAvailable
  {
    var records := Records(outcomes, unaddressed, report, renderFailed);
    var i :| 0 <= i < |records| && records[i] == r;
    RecordSource(outcomes, unaddressed, report, renderFailed, i);
  }

  /** Both ways: a pair's item offers a patch if and only if the pair has an outcome
      and all its records deliver. */
  lemma PatchIffAllDeliver(outcomes: seq<Outcome>, unaddressed: seq<Unfixed>, report: Report, renderFailed: map<string, string>,
                           items: seq<Item>, pair: (string, string))
    requires var records := Records(outcomes, unaddressed, report, renderFailed); IsListing(records, items) && Apart(records)
    ensures (exists e :: e in items && e.Pair() == pair && e.classification == PatchAvailable)
       <==> (exists o :: o in outcomes && OfPair(o, pair)) && AllDeliver(outcomes, unaddressed, renderFailed, pair)
  {
    if e :| e in items && e.Pair() == pair && e.classification == PatchAvailable {
      PatchHasOutcome(outcomes, unaddressed, report, renderFailed, items, e);
    }
    if o :| o in outcomes && OfPair(o, pair) && AllDeliver(outcomes, unaddressed, renderFailed, pair) {
      var e := OutcomeHasItem(outcomes, unaddressed, report, renderFailed, items, o);
      RecordDelivers(outcomes, unaddressed, report, renderFailed, e);
    }
  }

  lemma PatchHasOutcome(outcomes: seq<Outcome>, unaddressed: seq<Unfixed>, report: Report, renderFailed: map<string, string>,
                        items: seq<Item>, e: Item)
    requires IsListing(Records(outcomes, unaddressed, report, renderFailed), items)
    requires e in items && e.classification == PatchAvailable
    ensures (exists o :: o in outcomes && OfPair(o, e.Pair())) && AllDeliver(outcomes, unaddressed, renderFailed, e.Pair())
  {
    var records := Records(outcomes, unaddressed, report, renderFailed);
    WorstIsShown(records, items, e);
    var i :| 0 <= i < |records| && records[i] == e;
    RecordSource(outcomes, unaddressed, report, renderFailed, i);
    forall o | o in outcomes && OfPair(o, e.Pair()) ensures o.fixed && o.resourceId !in renderFailed {
      PatchIsTrusted(outcomes, unaddressed, report, renderFailed, items, e, o);
    }
    forall u | u in unaddressed ensures ("", Normalize(u.controlId)) != e.Pair() {
      SkippedOffersNoPatch(outcomes, unaddressed, report, renderFailed, items, e, u);
    }
  }

  lemma RankOfPair(records: seq<Item>, items: seq<Item>, e: Item, r: Item)
    requires IsListing(records, items) && e in items && r in records && r.Pair() == e.Pair()
    ensures RankOf(r) <= RankOf(e)
  {
    WorstIsShown(records, items, e);
  }

  lemma SkippedOffersNoPatch(outcomes: seq<Outcome>, unaddressed: seq<Unfixed>, report: Report, renderFailed: map<string, string>,
                             items: seq<Item>, e: Item, u: Unfixed)
    requires IsListing(Records(outcomes, unaddressed, report, renderFailed), items) && e in items && u in unaddressed
    ensures ("", Normalize(u.controlId)) == e.Pair() ==> e.classification == NotEvaluatedClass
  {
    var records := Records(outcomes, unaddressed, report, renderFailed);
    var k :| 0 <= k < |unaddressed| && unaddressed[k] == u;
    RecordSource(outcomes, unaddressed, report, renderFailed, |outcomes| + k);
    var r := records[|outcomes| + k];
    if r.Pair() == e.Pair() {
      RankOfPair(records, items, e, r);
    }
  }

  lemma OutcomeHasItem(outcomes: seq<Outcome>, unaddressed: seq<Unfixed>, report: Report, renderFailed: map<string, string>,
                       items: seq<Item>, o: Outcome) returns (e: Item)
    requires var records := Records(outcomes, unaddressed, report, renderFailed); IsListing(records, items) && Apart(records)
    requires o in outcomes
    ensures e in items && e in Records(outcomes, unaddressed, report, renderFailed) && OfPair(o, e.Pair())
  {
    var records := Records(outcomes, unaddressed, report, renderFailed);
    var i :| 0 <= i < |outcomes| && outcomes[i] == o;
    RecordSource(outcomes, unaddressed, report, renderFailed, i);
    var r := records[i];
    e := SomePrevails(WORST, records, r);
    SamePair(records, e, r);
    WorstIsKept(WORST, records, e);
  }

  // --------------------------------------------------------------- which class it is

  /** The outcome leaves no patch to apply: nothing was fixed, or its resource could not
      be rendered. */
  predicate LeftToHand(o: Outcome, renderFailed: map<string, string>) {
    o.resourceId in renderFailed || (!o.fixed && !o.partial)
  }

  /** One of the pair's records, and its class. */
  lemma RecordClass(outcomes: seq<Outcome>, unaddressed: seq<Unfixed>, report: Report, renderFailed: map<string, string>, i: nat)
    requires i < |outcomes| + |unaddressed|
    ensures var r := Records(outcomes, unaddressed, report, renderFailed)[i];
            if i < |outcomes|
            then && OfPair(outcomes[i], r.Pair())
                 && r.classification == if LeftToHand(outcomes[i], renderFailed) then Manual
                                        else if outcomes[i].fixed then PatchAvailable else PartialPatch
            else r.Pair() == ("", Normalize(unaddressed[i - |outcomes|].controlId)) && r.classification == NotEvaluatedClass
  {
    RecordAt(outcomes, unaddressed, report, renderFailed, i);
  }

  /** Manual before partial before patch: a record of the pair bounds its item. */
  lemma RecordBounds(outcomes: seq<Outcome>, unaddressed: seq<Unfixed>, report: Report, renderFailed: map<string, string>,
                     items: seq<Item>, e: Item, i: nat)
    requires IsListing(Records(outcomes, unaddressed, report, renderFailed), items) && e in items
    requires i < |outcomes| + |unaddressed|
    ensures var r := Records(outcomes, unaddressed, report, renderFailed)[i];
            r.Pair() == e.Pair() ==>
              && (r.classification == NotEvaluatedClass ==> e.classification == NotEvaluatedClass)
              && (r.classification == Manual ==> e.classification == Manual || e.classification == NotEvaluatedClass)
              && (r.classification == PartialPatch ==> e.classification != PatchAvailable)
  {
    var records := Records(outcomes, unaddressed, report, renderFailed);
    WorstIsShown(records, items, e);
    assert records[i] in records;
  }

  predicate PairSkipped(unaddressed: seq<Unfixed>, pair: (string, string)) {
    exists u :: u in unaddressed && ("", Normalize(u.controlId)) == pair
  }

  predicate SomeLeft(outcomes: seq<Outcome>, renderFailed: map<string, string>, pair: (string, string)) {
    exists o :: o in outcomes && OfPair(o, pair) && LeftToHand(o, renderFailed)
  }

  predicate SomeUnfixed(outcomes: seq<Outcome>, pair: (string, string)) {
    exists o :: o in outcomes && OfPair(o, pair) && !o.fixed
  }

  /** The worst of its records decides an item's class: not evaluated if the control was
      skipped, else manual if some outcome of the pair leaves no patch, else partial if
      some outcome is not fixed, else a patch. */
  lemma ClassIsWorst(outcomes: seq<Outcome>, unaddressed: seq<Unfixed>, report: Report, renderFailed: map<string, string>,
                     items: seq<Item>, e: Item)
    requires IsListing(Records(outcomes, unaddressed, report, renderFailed), items) && e in items
    ensures e.classification == if PairSkipped(unaddressed, e.Pair()) then NotEvaluatedClass
                                else if SomeLeft(outcomes, renderFailed, e.Pair()) then Manual
                                else if SomeUnfixed(outcomes, e.Pair()) then PartialPatch
                                else PatchAvailable
  {
    OwnRecord(outcomes, unaddressed, report, renderFailed, items, e);
    SkippedBounds(outcomes, unaddressed, report, renderFailed, items, e);
    forall o | o in outcomes && OfPair(o, e.Pair())
      ensures LeftToHand(o, renderFailed) ==> e.classification == Manual || e.classification == NotEvaluatedClass
      ensures !o.fixed ==> e.classification != PatchAvailable
    {
      OutcomeBounds(outcomes, unaddressed, report, renderFailed, items, e, o);
    }
  }

  /** The class comes from some record of the pair. */
  lemma OwnRecord(outcomes: seq<Outcome>, unaddressed: seq<Unfixed>, report: Report, renderFailed: map<string, string>,
                  items: seq<Item>, e: Item)
    requires IsListing(Records(outcomes, unaddressed, report, renderFailed), items) && e in items
    ensures e.classification == NotEvaluatedClass ==> PairSkipped(unaddressed, e.Pair())
    ensures e.classification == Manual ==> SomeLeft(outcomes, renderFailed, e.Pair())
    ensures e.classification == PartialPatch ==> SomeUnfixed(outcomes, e.Pair())
  {
    var records := Records(outcomes, unaddressed, report, renderFailed);
    WorstIsShown(records, items, e);
    var i :| 0 <= i < |records| && records[i] == e;
    RecordClass(outcomes, unaddressed, report, renderFailed, i);
    if i < |outcomes| { assert outcomes[i] in outcomes; } else { assert unaddressed[i - |outcomes|] in unaddressed; }
  }

  lemma SkippedBounds(outcomes: seq<Outcome>, unaddressed: seq<Unfixed>, report: Report, renderFailed: map<string, string>,
                      items: seq<Item>, e: Item)
    requires IsListing(Records(outcomes, unaddressed, report, renderFailed), items) && e in items
    ensures PairSkipped(unaddressed, e.Pair()) ==> e.classification == NotEvaluatedClass
  {
    if u :| u in unaddressed && ("", Normalize(u.controlId)) == e.Pair() {
      var k :| 0 <= k < |unaddressed| && unaddressed[k] == u;
      RecordClass(outcomes, unaddressed, report, renderFailed, |outcomes| + k);
      RecordBounds(outcomes, unaddressed, report, renderFailed, items, e, |outcomes| + k);
    }
  }

  lemma OutcomeBounds(outcomes: seq<Outcome>, unaddressed: seq<Unfixed>, report: Report, renderFailed: map<string, string>,
                      items: seq<Item>, e: Item, o: Outcome)
    requires IsListing(Records(outcomes, unaddressed, report, renderFailed), items) && e in items
    requires o in outcomes && OfPair(o, e.Pair())
    ensures LeftToHand(o, renderFailed) ==> e.classification == Manual || e.classification == NotEvaluatedClass
    ensures !o.fixed ==> e.classification != PatchAvailable
  {
    var k :| 0 <= k < |outcomes| && outcomes[k] == o;
    RecordClass(outcomes, unaddressed, report, renderFailed, k);
    RecordBounds(outcomes, unaddressed, report, renderFailed, items, e, k);
  }

  /** What an item says besides: it speaks for the first outcome of its pair that is of
      its class, with that outcome's reason, or the message of the failed rendering, the
      resource and the evidence of the report. */
  lemma ItemSpeaksFor(outcomes: seq<Outcome>, unaddressed: seq<Unfixed>, report: Report, renderFailed: map<string, string>,
                      items: seq<Item>, e: Item) returns (i: nat)
    requires IsListing(Records(outcomes, unaddressed, report, renderFailed), items) && e in items
    requires e.classification != NotEvaluatedClass
    ensures i < |outcomes| && OfPair(outcomes[i], e.Pair())
    ensures var o := outcomes[i];
            && e.controlId == o.controlId && e.controlName == o.controlName && e.filePath == o.filePath
            && e.reason == (if o.resourceId in renderFailed && (o.fixed || o.partial)
                            then NotRendered(renderFailed[o.resourceId]) else Text(o.reason))
            && (o.resourceId in report.resources ==> e.resource == report.resources[o.resourceId])
            && (o.resourceId !in report.resources ==> e.resource == NoResource)
    ensures var key := outcomes[i].resourceId + "\0" + Normalize(outcomes[i].controlId);
            e.evidence == if key in report.evidence then report.evidence[key] else Evidence([], false)
    ensures forall j :: 0 <= j < i && OfPair(outcomes[j], e.Pair()) ==>
              OutcomeItem(outcomes[j], report, renderFailed).classification != e.classification
  {
    var records := Records(outcomes, unaddressed, report, renderFailed);
    i :| Prevails(WORST, records, i) && records[i] == e;
    RecordAt(outcomes, unaddressed, report, renderFailed, i);
    forall j | 0 <= j < i && OfPair(outcomes[j], e.Pair())
      ensures OutcomeItem(outcomes[j], report, renderFailed).classification != e.classification
    {
      RecordAt(outcomes, unaddressed, report, renderFailed, j);
      SamePairSameKey(records[j], e);
      assert WORST.key(records[j]) == WORST.key(records[i]);
    }
  }

  lemma SamePairSameKey(a: Item, b: Item)
    ensures a.Pair() == b.Pair() ==> KeyOf(a) == KeyOf(b)
  {
    var p, q := a.Pair(), b.Pair();
    assert p == q ==> p.0 == q.0 && p.1 == q.1;
  }

  /** Items ascend by resource, and for one resource by control. */
  lemma ItemsAscend(records: seq<Item>, items: seq<Item>, i: nat, j: nat)
    requires IsListing(records, items) && i < j < |items|
    ensures var a, b := items[i], items[j];
            TextLess(a.resourceId, b.resourceId)
            || (a.resourceId == b.resourceId && TextLess(Normalize(a.controlId), Normalize(b.controlId)))
  {
    var a, b := items[i], items[j];
    var x, y := ItemFields(a), ItemFields(b);
    assert ItemLess(a, b);
    FieldsLessIsFirstDifference(x, y);
    var k: nat :| k < |x| && x[..k] == y[..k] && TextLess(x[k], y[k]);
    assert k == 1 ==> x[..1][0] == y[..1][0];
  }

  /** The item of a control nobody evaluated. */
  predicate SaysSkipped(e: Item, key: string) {
    e.resourceId == "" && e.classification == NotEvaluatedClass && Normalize(e.controlId) == key
  }

  lemma {:induction false} ListedIn(out: seq<Unfixed>, key: string)
    ensures Listed(out, key) > 0 <==> exists u :: u in out && Normalize(u.controlId) == key
  {
    if out != [] {
      var n := |out| - 1;
      ListedIn(out[..n], key);
      assert out == out[..n] + [out[n]];
    }
  }

  /** End to end: the answer has an item saying that a control was not evaluated,
      for exactly the controls asked for and skipped, whatever the outcomes. */
  lemma SkippedAreShown(requested: seq<string>, scan: Scan, outcomes: seq<Outcome>, report: Report,
                        renderFailed: map<string, string>, items: seq<Item>, key: string)
    requires IsListing(Records(outcomes, Unaddressed(requested, scan), report, renderFailed), items)
    ensures (exists e :: e in items && SaysSkipped(e, key)) <==> Mentions(requested, key) && scan.Skipped(key)
  {
    var out := Unaddressed(requested, scan);
    var records := Records(outcomes, out, report, renderFailed);
    ListedIfSkipped(requested, scan, key);
    ListedIn(out, key);
    if u :| u in out && Normalize(u.controlId) == key {
      SkippedHasItem(outcomes, out, report, renderFailed, items, u);
    }
    if e :| e in items && SaysSkipped(e, key) {
      var u := SkippedByRank(outcomes, out, report, renderFailed, e);
    }
  }

  lemma RecordAt(outcomes: seq<Outcome>, out: seq<Unfixed>, report: Report, renderFailed: map<string, string>, i: nat)
    requires i < |outcomes| + |out|
    ensures var r := Records(outcomes, out, report, renderFailed)[i];
            r == if i < |outcomes| then OutcomeItem(outcomes[i], report, renderFailed) else UnaddressedItem(out[i - |outcomes|])
  {
  }

  lemma SkippedByRank(outcomes: seq<Outcome>, out: seq<Unfixed>, report: Report, renderFailed: map<string, string>, e: Item)
    returns (u: Unfixed)
    requires e in Records(outcomes, out, report, renderFailed) && e.classification == NotEvaluatedClass
    ensures u in out && e == UnaddressedItem(u)
    ensures e.resourceId == "" && e.controlId == u.controlId && e.controlName == u.controlName && e.reason == u.reason
  {
    var records := Records(outcomes, out, report, renderFailed);
    var i :| 0 <= i < |records| && records[i] == e;
    RecordAt(outcomes, out, report, renderFailed, i);
    u := out[i - |outcomes|];
  }

  lemma SkippedHasItem(outcomes: seq<Outcome>, out: seq<Unfixed>, report: Report, renderFailed: map<string, string>,
                       items: seq<Item>, u: Unfixed)
    requires IsListing(Records(outcomes, out, report, renderFailed), items) && u in out
    ensures exists e :: e in items && SaysSkipped(e, Normalize(u.controlId))
  {
    var records := Records(outcomes, out, report, renderFailed);
    var i :| 0 <= i < |out| && out[i] == u;
    var r := records[|outcomes| + i];
    assert r == UnaddressedItem(u) && r in records;
    var e := SomePrevails(WORST, records, r);
    WorstIsKept(WORST, records, e);
    var v := SkippedByRank(outcomes, out, report, renderFailed, e);
    assert e.Key()[1..] == Normalize(e.controlId) && r.Key()[1..] == Normalize(u.controlId);
  }
}
