/** Facts about sequences that several components share: cutting a text at a
    separator and gluing it back, and tallying the elements of a sequence. */
module Sequences {

  /** The pieces of `s` between occurrences of `sep`; never empty, as strings.Split. */
  function Split<T(==)>(s: seq<T>, sep: T): (parts: seq<seq<T>>)
    ensures |parts| > 0
  {
    if s == [] then [[]]
    else
      var rest := Split(s[1..], sep);
      if s[0] == sep then [[]] + rest else [[s[0]] + rest[0]] + rest[1..]
  }

  /** The parts with `sep` between neighbours, as strings.Join. */
  function Join<T>(parts: seq<seq<T>>, sep: T): seq<T> {
    if |parts| == 0 then []
    else if |parts| == 1 then parts[0]
    else parts[0] + [sep] + Join(parts[1..], sep)
  }

  predicate Free<T(==)>(s: seq<T>, sep: T) {
    sep !in s
  }

  lemma {:induction false} SplitOfFree<T>(s: seq<T>, sep: T)
    requires Free(s, sep)
    ensures Split(s, sep) == [s]
  {
    if s != [] {
      SplitOfFree(s[1..], sep);
      assert [s[0]] + s[1..] == s;
    }
  }

  /** Cutting distributes over a separator, whatever stands on either side. */
  lemma {:induction false} SplitAppend<T>(a: seq<T>, sep: T, b: seq<T>)
    ensures Split(a + [sep] + b, sep) == Split(a, sep) + Split(b, sep)
  {
    var whole := a + [sep] + b;
    if a == [] {
      assert whole[1..] == b;
    } else {
      assert whole[1..] == a[1..] + [sep] + b;
      SplitAppend(a[1..], sep, b);
    }
  }

  lemma {:induction false} SplitPiecesFree<T>(s: seq<T>, sep: T)
    ensures forall part :: part in Split(s, sep) ==> Free(part, sep)
  {
    if s != [] {
      SplitPiecesFree(s[1..], sep);
      var rest := Split(s[1..], sep);
      assert Free(rest[0], sep);
      assert s[0] != sep ==> Free([s[0]] + rest[0], sep);
    }
  }

  lemma {:induction false} JoinOfSplit<T>(s: seq<T>, sep: T)
    ensures Join(Split(s, sep), sep) == s
  {
    if s != [] {
      var rest := Split(s[1..], sep);
      JoinOfSplit(s[1..], sep);
      if s[0] == sep {
        assert ([[]] + rest)[1..] == rest;
      } else {
        var parts := [[s[0]] + rest[0]] + rest[1..];
        assert parts[1..] == rest[1..];
      }
    }
  }

  lemma {:induction false} SplitOfJoin<T>(parts: seq<seq<T>>, sep: T)
    requires |parts| > 0
    requires forall part :: part in parts ==> Free(part, sep)
    ensures Split(Join(parts, sep), sep) == parts
  {
    SplitOfFree(parts[0], sep);
    if |parts| > 1 {
      SplitOfJoin(parts[1..], sep);
      SplitAppend(parts[0], sep, Join(parts[1..], sep));
    }
  }

  lemma {:induction false} FreeJoin<T>(parts: seq<seq<T>>, sep: T, other: T)
    requires sep != other
    requires forall part :: part in parts ==> Free(part, other)
    ensures Free(Join(parts, sep), other)
  {
    if |parts| > 0 {
      assert Free(parts[0], other);
    }
    if |parts| > 1 {
      FreeJoin(parts[1..], sep, other);
      assert Free(Join(parts[1..], sep), other);
    }
  }

  function TrimLeft<T>(blank: T -> bool, s: seq<T>): seq<T> {
    if s != [] && blank(s[0]) then TrimLeft(blank, s[1..]) else s
  }

  function TrimRight<T>(blank: T -> bool, s: seq<T>): seq<T> {
    if s != [] && blank(s[|s| - 1]) then TrimRight(blank, s[..|s| - 1]) else s
  }

  /** `s` without the blanks at its ends. */
  function Trim<T>(blank: T -> bool, s: seq<T>): seq<T> {
    TrimRight(blank, TrimLeft(blank, s))
  }

  lemma {:induction false} TrimLeftIsPart<T>(blank: T -> bool, s: seq<T>)
    ensures |TrimLeft(blank, s)| <= |s| && forall x :: x in TrimLeft(blank, s) ==> x in s
  {
    if s != [] && blank(s[0]) {
      TrimLeftIsPart(blank, s[1..]);
    }
  }

  lemma {:induction false} TrimRightIsPart<T>(blank: T -> bool, s: seq<T>)
    ensures |TrimRight(blank, s)| <= |s| && forall x :: x in TrimRight(blank, s) ==> x in s
  {
    if s != [] && blank(s[|s| - 1]) {
      TrimRightIsPart(blank, s[..|s| - 1]);
    }
  }

  lemma TrimIsPart<T>(blank: T -> bool, s: seq<T>)
    ensures |Trim(blank, s)| <= |s| && forall x :: x in Trim(blank, s) ==> x in s
  {
    TrimLeftIsPart(blank, s);
    TrimRightIsPart(blank, TrimLeft(blank, s));
  }

  lemma {:induction false} TrimLeftCut<T>(blank: T -> bool, s: seq<T>) returns (i: nat)
    ensures i <= |s| && TrimLeft(blank, s) == s[i..]
    ensures (forall k :: 0 <= k < i ==> blank(s[k])) && (i < |s| ==> !blank(s[i]))
  {
    if s != [] && blank(s[0]) {
      var j := TrimLeftCut(blank, s[1..]);
      i := j + 1;
      assert s[1..][j..] == s[i..];
    } else {
      i := 0;
      assert s[0..] == s;
    }
  }

  lemma {:induction false} TrimRightCut<T>(blank: T -> bool, s: seq<T>) returns (n: nat)
    ensures n <= |s| && TrimRight(blank, s) == s[..n]
    ensures (forall k :: n <= k < |s| ==> blank(s[k])) && (n > 0 ==> !blank(s[n - 1]))
  {
    if s != [] && blank(s[|s| - 1]) {
      n := TrimRightCut(blank, s[..|s| - 1]);
      assert s[..|s| - 1][..n] == s[..n];
    } else {
      n := |s|;
      assert s[..|s|] == s;
    }
  }

  /** Trimming keeps one stretch; what it cuts off at the ends is blank, and the
      stretch has no blank at its ends. */
  lemma TrimCut<T>(blank: T -> bool, s: seq<T>) returns (i: nat, j: nat)
    ensures i <= j <= |s| && Trim(blank, s) == s[i..j]
    ensures forall k :: 0 <= k < |s| && !(i <= k < j) ==> blank(s[k])
    ensures i < j ==> !blank(s[i]) && !blank(s[j - 1])
  {
    i := TrimLeftCut(blank, s);
    var n := TrimRightCut(blank, s[i..]);
    j := i + n;
    assert s[i..][..n] == s[i..j];
  }

  predicate AllBlank<T>(blank: T -> bool, s: seq<T>) {
    forall k :: 0 <= k < |s| ==> blank(s[k])
  }

  /** Nothing at either end to trim. */
  predicate IsTrim<T>(blank: T -> bool, s: seq<T>) {
    s == [] || (!blank(s[0]) && !blank(s[|s| - 1]))
  }

  lemma {:induction false} TrimLeftDrops<T>(blank: T -> bool, a: seq<T>, s: seq<T>)
    requires AllBlank(blank, a) && (s == [] || !blank(s[0]))
    ensures TrimLeft(blank, a + s) == s
  {
    if a == [] {
      assert a + s == s;
    } else {
      assert (a + s)[0] == a[0] && (a + s)[1..] == a[1..] + s;
      TrimLeftDrops(blank, a[1..], s);
    }
  }

  lemma {:induction false} TrimRightDrops<T>(blank: T -> bool, s: seq<T>, b: seq<T>)
    requires AllBlank(blank, b) && (s == [] || !blank(s[|s| - 1]))
    ensures TrimRight(blank, s + b) == s
  {
    if b == [] {
      assert s + b == s;
    } else {
      var n := |b| - 1;
      assert (s + b)[|s + b| - 1] == b[n] && (s + b)[..|s + b| - 1] == s + b[..n];
      TrimRightDrops(blank, s, b[..n]);
    }
  }

  /** A text with blanks around it trims to that text. */
  lemma TrimDrops<T>(blank: T -> bool, a: seq<T>, s: seq<T>, b: seq<T>)
    requires AllBlank(blank, a) && AllBlank(blank, b) && IsTrim(blank, s)
    ensures Trim(blank, a + s + b) == s
  {
    if s == [] {
      assert a + s + b == (a + b) + [];
      TrimLeftDrops(blank, a + b, []);
    } else {
      assert a + s + b == a + (s + b);
      TrimLeftDrops(blank, a, s + b);
      TrimRightDrops(blank, s, b);
    }
  }

  /** How often `x` occurs. */
  function Count<T(==)>(s: seq<T>, x: T): nat {
    if s == [] then 0 else (if s[0] == x then 1 else 0) + Count(s[1..], x)
  }

  lemma {:induction false} CountAppend<T>(a: seq<T>, b: seq<T>, x: T)
    ensures Count(a + b, x) == Count(a, x) + Count(b, x)
  {
    if a == [] {
      assert a + b == b;
    } else {
      assert (a + b)[1..] == a[1..] + b;
      CountAppend(a[1..], b, x);
    }
  }

  lemma {:induction false} CountIn<T>(s: seq<T>, x: T)
    ensures Count(s, x) > 0 <==> x in s
  {
    if s != [] {
      CountIn(s[1..], x);
      assert s == [s[0]] + s[1..];
    }
  }

  /** No element occurs twice. */
  predicate Distinct<T(==)>(s: seq<T>) {
    forall i, j :: 0 <= i < j < |s| ==> s[i] != s[j]
  }

  lemma {:induction false} DistinctCounts<T>(s: seq<T>, x: T)
    requires Distinct(s)
    ensures Count(s, x) <= 1
  {
    if s != [] {
      DistinctCounts(s[1..], x);
      CountIn(s[1..], x);
    }
  }

  lemma {:induction false} RepeatCounts<T>(s: seq<T>, i: nat, j: nat)
    requires i < j < |s| && s[i] == s[j]
    ensures Count(s, s[i]) > 1
  {
    if i == 0 {
      CountIn(s[1..], s[0]);
      assert s[j] == s[1..][j - 1];
    } else {
      RepeatCounts(s[1..], i - 1, j - 1);
    }
  }

  /** Places in a sequence of length `n`, in ascending order. */
  predicate Ascending(at: seq<nat>, n: nat) {
    (forall k :: 0 <= k < |at| ==> at[k] < n) && forall k, l :: 0 <= k < l < |at| ==> at[k] < at[l]
  }

  lemma AscendingMore(at: seq<nat>, n: nat)
    requires Ascending(at, n)
    ensures Ascending(at, n + 1) && Ascending(at + [n], n + 1)
    ensures n !in at && n in at + [n] && forall i :: i < n ==> (i in at + [n] <==> i in at)
  {
    assert forall k :: 0 <= k < |at| ==> (at + [n])[k] == at[k];
    assert (at + [n])[|at|] == n;
  }

  /** The sequences one after the other. */
  function Flatten<T>(ss: seq<seq<T>>): seq<T> {
    if ss == [] then [] else Flatten(ss[..|ss| - 1]) + ss[|ss| - 1]
  }

  lemma {:induction false} InFlatten<T>(ss: seq<seq<T>>, x: T)
    ensures x in Flatten(ss) <==> exists i :: 0 <= i < |ss| && x in ss[i]
  {
    if ss != [] {
      var n := |ss| - 1;
      InFlatten(ss[..n], x);
      assert forall i :: 0 <= i < n ==> ss[..n][i] == ss[i];
    }
  }

  /** An element of two of the sequences occurs at least twice. */
  lemma {:induction false} TwiceInFlatten<T>(ss: seq<seq<T>>, i: nat, j: nat, x: T)
    requires i < j < |ss| && x in ss[i] && x in ss[j]
    ensures Count(Flatten(ss), x) >= 2
  {
    var n := |ss| - 1;
    CountAppend(Flatten(ss[..n]), ss[n], x);
    if j < n {
      TwiceInFlatten(ss[..n], i, j, x);
    } else {
      InFlatten(ss[..n], x);
      assert x in ss[..n][i];
      CountIn(Flatten(ss[..n]), x);
      CountIn(ss[n], x);
    }
  }

  /** An element occurs twice if it is in two of the sequences or twice in one. */
  predicate TwiceAmong<T(==)>(ss: seq<seq<T>>, x: T) {
    || (exists i, j :: 0 <= i < j < |ss| && x in ss[i] && x in ss[j])
    || (exists i :: 0 <= i < |ss| && Count(ss[i], x) > 1)
  }

  lemma {:induction false} FlattenRepeats<T>(ss: seq<seq<T>>, x: T)
    requires Count(Flatten(ss), x) > 1
    ensures TwiceAmong(ss, x)
  {
    var n := |ss| - 1;
    var front := ss[..n];
    CountAppend(Flatten(front), ss[n], x);
    if Count(Flatten(front), x) > 1 {
      FlattenRepeats(front, x);
      if i, j :| 0 <= i < j < |front| && x in front[i] && x in front[j] {
        assert x in ss[i] && x in ss[j];
      } else {
        var i :| 0 <= i < |front| && Count(front[i], x) > 1;
        assert Count(ss[i], x) > 1;
      }
    } else if Count(ss[n], x) <= 1 {
      CountIn(Flatten(front), x);
      CountIn(ss[n], x);
      InFlatten(front, x);
      var i :| 0 <= i < |front| && x in front[i];
      assert x in ss[i] && x in ss[n];
    }
  }

  lemma {:induction false} FlattenCountsAll<T>(ss: seq<seq<T>>, i: nat, x: T)
    requires i < |ss|
    ensures Count(Flatten(ss), x) >= Count(ss[i], x)
  {
    var n := |ss| - 1;
    CountAppend(Flatten(ss[..n]), ss[n], x);
    if i < n {
      FlattenCountsAll(ss[..n], i, x);
    }
  }

  lemma {:induction false} CountedTwice<T>(s: seq<T>, x: T) returns (i: nat, j: nat)
    requires Count(s, x) > 1
    ensures i < j < |s| && s[i] == x && s[j] == x
  {
    if s[0] == x {
      CountIn(s[1..], x);
      var k :| 0 <= k < |s[1..]| && s[1..][k] == x;
      i, j := 0, k + 1;
    } else {
      var k, l := CountedTwice(s[1..], x);
      i, j := k + 1, l + 1;
    }
  }

  /** The sum of a weight over the elements. */
  function Sum<T>(weight: T -> nat, s: seq<T>): nat {
    if s == [] then 0 else weight(s[0]) + Sum(weight, s[1..])
  }

  lemma {:induction false} SumUpdate<T>(weight: T -> nat, s: seq<T>, i: nat, x: T)
    requires i < |s|
    ensures Sum(weight, s[i := x]) + weight(s[i]) == Sum(weight, s) + weight(x)
  {
    if i == 0 {
      assert s[i := x][1..] == s[1..];
    } else {
      assert s[i := x][1..] == s[1..][i - 1 := x];
      SumUpdate(weight, s[1..], i - 1, x);
    }
  }

  lemma {:induction false} SumAppend<T>(weight: T -> nat, s: seq<T>, x: T)
    ensures Sum(weight, s + [x]) == Sum(weight, s) + weight(x)
  {
    if s == [] {
      assert (s + [x])[1..] == [];
    } else {
      assert (s + [x])[1..] == s[1..] + [x];
      SumAppend(weight, s[1..], x);
    }
  }

  lemma {:induction false} SumAtLeast<T>(weight: T -> nat, s: seq<T>, i: nat)
    requires i < |s|
    ensures Sum(weight, s) >= weight(s[i])
  {
    if i > 0 {
      SumAtLeast(weight, s[1..], i - 1);
    }
  }

  /** A positive sum has a positive summand. */
  lemma {:induction false} SumWitness<T>(weight: T -> nat, s: seq<T>) returns (i: nat)
    requires Sum(weight, s) > 0
    ensures i < |s| && weight(s[i]) > 0
  {
    if weight(s[0]) > 0 {
      i := 0;
    } else {
      var j := SumWitness(weight, s[1..]);
      i := j + 1;
    }
  }

  lemma {:induction false} SumZero<T>(weight: T -> nat, s: seq<T>)
    requires forall x :: x in s ==> weight(x) == 0
    ensures Sum(weight, s) == 0
  {
    if s != [] {
      SumZero(weight, s[1..]);
    }
  }
}
