/** Keeping one record per key: the first of the worst ones. */
module Worst {

  /** How records are told apart and compared. */
  datatype Measure<!T> = Measure(key: T -> string, rank: T -> nat)

  /** The record at `i` is the first of the worst under its key. */
  predicate Prevails<T>(m: Measure<T>, records: seq<T>, i: nat) {
    && i < |records|
    && (forall j :: 0 <= j < i && m.key(records[j]) == m.key(records[i]) ==> m.rank(records[j]) < m.rank(records[i]))
    && (forall j :: i < j < |records| && m.key(records[j]) == m.key(records[i]) ==> m.rank(records[j]) <= m.rank(records[i]))
  }

  ghost predicate Prevailing<T>(m: Measure<T>, records: seq<T>, e: T) {
    exists i: nat :: Prevails(m, records, i) && records[i] == e
  }

  lemma WorstIsKept<T>(m: Measure<T>, records: seq<T>, e: T)
    requires Prevailing(m, records, e)
    ensures e in records
    ensures forall r :: r in records && m.key(r) == m.key(e) ==> m.rank(r) <= m.rank(e)
  {
    var i: nat :| Prevails(m, records, i) && records[i] == e;
  }

  /** Under one key one record prevails. */
  lemma OnePrevails<T>(m: Measure<T>, records: seq<T>, a: T, b: T)
    requires Prevailing(m, records, a) && Prevailing(m, records, b) && m.key(a) == m.key(b)
    ensures a == b
  {
    var i: nat :| Prevails(m, records, i) && records[i] == a;
    var j: nat :| Prevails(m, records, j) && records[j] == b;
    WorstIsKept(m, records, a);
    WorstIsKept(m, records, b);
    assert records[i] in records && records[j] in records;
  }

  /** What a pass over the records has under each key. */
  ghost predicate KeptOk<T>(m: Measure<T>, records: seq<T>, byKey: map<string, T>) {
    && (forall k :: k in byKey ==> m.key(byKey[k]) == k && Prevailing(m, records, byKey[k]))
    && (forall r :: r in records ==> m.key(r) in byKey)
  }

  /** A record replaces the one under its key only when it is worse. */
  function Add<T>(m: Measure<T>, byKey: map<string, T>, r: T): map<string, T> {
    if m.key(r) in byKey && m.rank(byKey[m.key(r)]) >= m.rank(r) then byKey else byKey[m.key(r) := r]
  }

  lemma StillPrevails<T>(m: Measure<T>, records: seq<T>, r: T, e: T)
    requires Prevailing(m, records, e)
    requires m.key(e) == m.key(r) ==> m.rank(e) >= m.rank(r)
    ensures Prevailing(m, records + [r], e)
  {
    var i: nat :| Prevails(m, records, i) && records[i] == e;
    assert Prevails(m, records + [r], i);
  }

  lemma NowPrevails<T>(m: Measure<T>, records: seq<T>, r: T)
    requires forall x :: x in records && m.key(x) == m.key(r) ==> m.rank(x) < m.rank(r)
    ensures Prevailing(m, records + [r], r)
  {
    assert forall j :: 0 <= j < |records| ==> (records + [r])[j] in records;
    assert Prevails(m, records + [r], |records|);
  }

  lemma AddKeeps<T>(m: Measure<T>, records: seq<T>, byKey: map<string, T>, r: T)
    requires KeptOk(m, records, byKey)
    ensures KeptOk(m, records + [r], Add(m, byKey, r))
  {
    var kept := Add(m, byKey, r);
    if m.key(r) in byKey {
      WorstIsKept(m, records, byKey[m.key(r)]);
    }
    forall k | k in kept ensures m.key(kept[k]) == k && Prevailing(m, records + [r], kept[k]) {
      if k == m.key(r) && kept != byKey {
        NowPrevails(m, records, r);
      } else {
        StillPrevails(m, records, r, byKey[k]);
      }
    }
  }

  lemma AddNext<T>(m: Measure<T>, records: seq<T>, i: nat, byKey: map<string, T>)
    requires i < |records| && KeptOk(m, records[..i], byKey)
    ensures KeptOk(m, records[..i + 1], Add(m, byKey, records[i]))
  {
    AddKeeps(m, records[..i], byKey, records[i]);
    assert records[..i + 1] == records[..i] + [records[i]];
  }

  lemma AddAfter<T>(m: Measure<T>, before: seq<T>, records: seq<T>, i: nat, byKey: map<string, T>)
    requires i < |records| && KeptOk(m, before + records[..i], byKey)
    ensures KeptOk(m, before + records[..i + 1], Add(m, byKey, records[i]))
  {
    AddKeeps(m, before + records[..i], byKey, records[i]);
    assert before + records[..i + 1] == before + records[..i] + [records[i]];
  }

  lemma {:induction false} Reduced<T>(m: Measure<T>, records: seq<T>, n: nat) returns (byKey: map<string, T>)
    requires n <= |records|
    ensures KeptOk(m, records[..n], byKey)
  {
    byKey := map[];
    if n > 0 {
      var kept := Reduced(m, records, n - 1);
      AddNext(m, records, n - 1, kept);
      byKey := Add(m, kept, records[n - 1]);
    }
  }

  lemma SomePrevails<T>(m: Measure<T>, records: seq<T>, r: T) returns (e: T)
    requires r in records
    ensures Prevailing(m, records, e) && m.key(e) == m.key(r)
  {
    var byKey := Reduced(m, records, |records|);
    assert records[..|records|] == records;
    e := byKey[m.key(r)];
  }

  /** What is kept, in some order: the loop over the map. */
  method ValuesOf<T(==)>(m: Measure<T>, byKey: map<string, T>) returns (items: seq<T>)
    requires forall k :: k in byKey ==> m.key(byKey[k]) == k
    ensures forall e :: e in items <==> m.key(e) in byKey && byKey[m.key(e)] == e
    ensures forall i, j :: 0 <= i < j < |items| ==> m.key(items[i]) != m.key(items[j])
  {
    items := [];
    var left := byKey.Keys;
    while left != {}
      invariant left <= byKey.Keys
      invariant forall e :: e in items <==> m.key(e) in byKey.Keys - left && byKey[m.key(e)] == e
      invariant forall i, j :: 0 <= i < j < |items| ==> m.key(items[i]) != m.key(items[j])
      decreases left
    {
      var k :| k in left;
      assert forall i :: 0 <= i < |items| ==> items[i] in items;
      left := left - {k};
      items := items + [byKey[k]];
    }
  }
}
