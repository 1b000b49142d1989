/** parseControlIDs: the control_ids argument as a comma-separated string or as
    an array of strings. */
module ControlIds {
  import opened Sequences
  import opened Keys

  /** A JSON value as the tools receive it; NotText stands for any array element
      that is not a string, Other for any other shape. */
  datatype Item = Id(text: Text) | NotText
  datatype Raw = Absent | Listed(text: Text) | Items(items: seq<Item>) | Other
  datatype Parsed = Ids(ids: seq<Text>) | Refused

  predicate IsSpace(c: Byte) {
    9 <= c <= 13 || c == SPACE
  }

  function TrimId(s: Text): Text {
    Trim(IsSpace, s)
  }

  /** The parts trimmed, without the blank ones. */
  function NonBlank(parts: seq<Text>): seq<Text> {
    if parts == [] then []
    else
      var id := TrimId(parts[0]);
      (if id == [] then [] else [id]) + NonBlank(parts[1..])
  }

  function Texts(items: seq<Item>): seq<Text>
    requires NotText !in items
  {
    seq(|items|, i requires 0 <= i < |items| => items[i].text)
  }

  function SomeIds(ids: seq<Text>): Parsed {
    if ids == [] then Refused else Ids(ids)
  }

  function Parse(raw: Raw): Parsed {
    match raw
    case Absent => Refused
    case Listed(text) => SomeIds(NonBlank(Split(text, COMMA)))
    case Items(items) => if NotText in items then Refused else SomeIds(NonBlank(Texts(items)))
    case Other => Refused
  }

  lemma {:induction false} NonBlankAppend(parts: seq<Text>, part: Text)
    ensures NonBlank(parts + [part]) == NonBlank(parts) + NonBlank([part])
  {
    if parts == [] {
      assert parts + [part] == [part];
    } else {
      assert (parts + [part])[1..] == parts[1..] + [part];
      NonBlankAppend(parts[1..], part);
    }
  }

  method KeepNonBlank(parts: seq<Text>) returns (ids: seq<Text>)
    ensures ids == NonBlank(parts)
  {
    ids := [];
    for i := 0 to |parts|
      invariant ids == NonBlank(parts[..i])
    {
      assert parts[..i + 1] == parts[..i] + [parts[i]];
      NonBlankAppend(parts[..i], parts[i]);
      var id := TrimId(parts[i]);
      if id != [] {
        ids := ids + [id];
      }
    }
    assert parts[..|parts|] == parts;
  }

  method ParseControlIds(raw: Raw) returns (r: Parsed)
    ensures r == Parse(raw)
  {
    var ids := [];
    match raw {
      case Absent => return Refused;
      case Other => return Refused;
      case Listed(text) => ids := KeepNonBlank(Split(text, COMMA));
      case Items(items) =>
        for i := 0 to |items|
          invariant NotText !in items[..i]
          invariant ids == NonBlank(Texts(items[..i]))
        {
          if items[i].NotText? {
            return Refused;
          }
          var id := TrimId(items[i].text);
          assert Texts(items[..i + 1]) == Texts(items[..i]) + [items[i].text];
          NonBlankAppend(Texts(items[..i]), items[i].text);
          if id != [] {
            ids := ids + [id];
          }
        }
        assert items[..|items|] == items;
    }
    r := if ids == [] then Refused else Ids(ids);
  }

  lemma {:induction false} NonBlankKeepsFree(parts: seq<Text>, mark: Byte)
    requires forall part :: part in parts ==> Free(part, mark)
    ensures forall id :: id in NonBlank(parts) ==> Free(id, mark)
  {
    if parts != [] {
      assert Free(parts[0], mark);
      TrimIsPart(IsSpace, parts[0]);
      NonBlankKeepsFree(parts[1..], mark);
    }
  }

  /** A part with the blanks around it taken off, if that leaves anything. */
  ghost predicate TrimmedFrom(part: Text, id: Text) {
    id != [] && IsTrim(IsSpace, id) && exists a, b :: part == a + id + b && AllBlank(IsSpace, a) && AllBlank(IsSpace, b)
  }

  lemma TrimmedPart(part: Text)
    ensures TrimId(part) != [] ==> TrimmedFrom(part, TrimId(part))
    ensures TrimId(part) == [] <==> AllBlank(IsSpace, part)
  {
    var i, j := TrimCut(IsSpace, part);
    if TrimId(part) != [] {
      assert part == part[..i] + part[i..j] + part[j..];
      assert AllBlank(IsSpace, part[..i]) && AllBlank(IsSpace, part[j..]);
    } else {
      assert i == j;
    }
  }

  /** `at` says which part each ID comes from, in ascending order; all other parts are
      blank. */
  ghost predicate InPlaces(parts: seq<Text>, ids: seq<Text>, at: seq<nat>) {
    && |at| == |ids|
    && Ascending(at, |parts|)
    && (forall k :: 0 <= k < |at| ==> TrimmedFrom(parts[at[k]], ids[k]))
    && (forall i :: 0 <= i < |parts| && i !in at ==> AllBlank(IsSpace, parts[i]))
  }

  lemma BlankHasNoPlace(parts: seq<Text>, last: Text, ids: seq<Text>, at: seq<nat>)
    requires InPlaces(parts, ids, at) && AllBlank(IsSpace, last)
    ensures InPlaces(parts + [last], ids, at)
  {
    AscendingMore(at, |parts|);
    assert forall i :: 0 <= i < |parts| ==> (parts + [last])[i] == parts[i];
  }

  lemma OneMorePlace(parts: seq<Text>, last: Text, ids: seq<Text>, at: seq<nat>, id: Text)
    requires InPlaces(parts, ids, at) && TrimmedFrom(last, id)
    ensures InPlaces(parts + [last], ids + [id], at + [|parts|])
  {
    var all, places := parts + [last], at + [|parts|];
    AscendingMore(at, |parts|);
    assert forall i :: 0 <= i < |parts| ==> all[i] == parts[i];
    forall i | 0 <= i < |all| && i !in places ensures AllBlank(IsSpace, all[i]) {
      assert i in at ==> i in places;
      assert |parts| in places;
    }
  }

  lemma NonBlankOfOne(part: Text)
    ensures NonBlank([part]) == if TrimId(part) == [] then [] else [TrimId(part)]
  {
    var none: seq<Text> := [part][1..];
    assert none == [];
  }

  /** The IDs are the parts that are not blank, trimmed, each in its place. */
  lemma {:induction false} IdsAreTrimmedParts(parts: seq<Text>) returns (at: seq<nat>)
    ensures InPlaces(parts, NonBlank(parts), at)
  {
    at := [];
    if parts != [] {
      var front, last := parts[..|parts| - 1], parts[|parts| - 1];
      assert parts == front + [last];
      at := IdsAreTrimmedParts(front);
      NonBlankAppend(front, last);
      NonBlankOfOne(last);
      TrimmedPart(last);
      if TrimId(last) == [] {
        BlankHasNoPlace(front, last, NonBlank(front), at);
      } else {
        OneMorePlace(front, last, NonBlank(front), at, TrimId(last));
        at := at + [|front|];
      }
    }
  }

  /** What the string form is parsed to: its parts between commas, trimmed, without the
      blank ones; refused if all are blank. */
  lemma ListedIsParsed(text: Text) returns (at: seq<nat>)
    ensures var parts, r := Split(text, COMMA), Parse(Listed(text));
            if r.Ids? then r.ids != [] && InPlaces(parts, r.ids, at) else forall part :: part in parts ==> AllBlank(IsSpace, part)
  {
    at := IdsAreTrimmedParts(Split(text, COMMA));
  }

  /** The array form: refused for an element that is not a string, and otherwise parsed
      the same way from its elements. */
  lemma ItemsAreParsed(items: seq<Item>) returns (at: seq<nat>)
    ensures var r := Parse(Items(items));
            if r.Ids? then NotText !in items && r.ids != [] && InPlaces(Texts(items), r.ids, at)
            else NotText in items || forall i :: 0 <= i < |items| ==> items[i].Id? && AllBlank(IsSpace, items[i].text)
  {
    at := [];
    if NotText !in items {
      at := IdsAreTrimmedParts(Texts(items));
      forall i | 0 <= i < |items| ensures items[i].Id? && (NonBlank(Texts(items)) == [] ==> AllBlank(IsSpace, items[i].text)) {
        assert items[i] in items;
        assert Texts(items)[i] == items[i].text;
      }
    }
  }

  /** The string form never yields an ID with a comma, so the requests built
      from it are told apart by their keys. */
  lemma ListedIdsAreCommaFree(text: Text)
    ensures var r := Parse(Listed(text)); r.Ids? ==> r.ids != [] && forall id :: id in r.ids ==> Free(id, COMMA)
  {
    SplitPiecesFree(text, COMMA);
    NonBlankKeepsFree(Split(text, COMMA), COMMA);
  }

  /** The two spellings of one list of IDs are the same request. */
  lemma SpellingsAgree(ids: seq<Text>)
    requires ids != [] && forall id :: id in ids ==> Free(id, COMMA)
    ensures Parse(Listed(JoinIds(ids))) == Parse(Items(seq(|ids|, i requires 0 <= i < |ids| => Id(ids[i]))))
  {
    SplitOfJoin(ids, COMMA);
    var items := seq(|ids|, i requires 0 <= i < |ids| => Id(ids[i]));
    assert NotText !in items;
    assert Texts(items) == ids;
  }

  /** Neither end is blank. */
  predicate Trimmed(id: Text) {
    id != [] && !IsSpace(id[0]) && !IsSpace(id[|id| - 1])
  }

  lemma TrimmedStays(id: Text)
    requires Trimmed(id)
    ensures TrimId(id) == id && NonBlank([id]) == [id]
  {
    assert TrimLeft(IsSpace, id) == id;
    assert [id][1..] == [];
  }

  /** The array form lets an ID with a comma through, and a control scan for it is
      then answered together with one for the two IDs it looks like. */
  lemma ArrayLetsCommaThrough(a: Text, b: Text, ns: Text)
    requires Trimmed(a) && Trimmed(b)
    ensures var joined := a + [COMMA] + b;
            && Parse(Items([Id(joined)])) == Ids([joined]) && !Free(joined, COMMA)
            && Parse(Items([Id(a), Id(b)])) == Ids([a, b])
            && [joined] != [a, b] && KeyOf(ControlScan(ns, [joined])) == KeyOf(ControlScan(ns, [a, b]))
  {
    var joined := a + [COMMA] + b;
    assert Trimmed(joined) by { assert joined[|joined| - 1] == b[|b| - 1]; }
    TrimmedStays(joined);
    TrimmedStays(a);
    TrimmedStays(b);
    assert joined[|a|] == COMMA;
    assert Texts([Id(joined)]) == [joined] && Texts([Id(a), Id(b)]) == [a, b];
    NonBlankAppend([a], b);
    assert [a] + [b] == [a, b];
    CommaMergesControlIds(a, b, ns);
  }
}
