/** Strict orders, the sequences they sort, and the byte order of Go strings. */
module Orders {

  ghost predicate StrictOrder<T(!new)>(less: (T, T) -> bool) {
    && (forall x :: !less(x, x))
    && (forall x, y, z :: less(x, y) && less(y, z) ==> less(x, z))
  }

  ghost predicate Total<T(!new)>(less: (T, T) -> bool) {
    forall x, y :: less(x, y) || x == y || less(y, x)
  }

  ghost predicate StrictlySorted<T>(less: (T, T) -> bool, s: seq<T>) {
    forall i, j :: 0 <= i < j < |s| ==> less(s[i], s[j])
  }

  /** Any two elements in different places are ordered one way or the other. */
  ghost predicate Comparable<T>(less: (T, T) -> bool, s: seq<T>) {
    forall i, j :: 0 <= i < j < |s| ==> less(s[i], s[j]) || less(s[j], s[i])
  }

  /** A strictly sorted listing is determined by what it lists. */
  lemma {:induction false} SortedIsUnique<T(!new)>(less: (T, T) -> bool, s: seq<T>, t: seq<T>)
    requires StrictOrder(less) && StrictlySorted(less, s) && StrictlySorted(less, t)
    requires forall x :: x in s <==> x in t
    ensures s == t
  {
    assert |t| > 0 ==> t[0] in s;
    assert |s| > 0 ==> s[0] in t;
    if s != [] {
      assert s[0] == t[0];
      forall x ensures x in s[1..] <==> x in t[1..] {
        assert x in s[1..] <==> x in s && x != s[0];
        assert x in t[1..] <==> x in t && x != t[0];
      }
      SortedIsUnique(less, s[1..], t[1..]);
      assert s == [s[0]] + s[1..] && t == [t[0]] + t[1..];
    }
  }

  function Insert<T>(less: (T, T) -> bool, x: T, s: seq<T>): seq<T> {
    if s == [] || less(x, s[0]) then [x] + s else [s[0]] + Insert(less, x, s[1..])
  }

  /** What sort.Slice yields on a slice whose elements are all comparable. */
  function Sort<T>(less: (T, T) -> bool, s: seq<T>): seq<T> {
    if s == [] then [] else Insert(less, s[0], Sort(less, s[1..]))
  }

  lemma {:induction false} InsertKeeps<T>(less: (T, T) -> bool, x: T, s: seq<T>)
    ensures multiset(Insert(less, x, s)) == multiset(s) + multiset{x}
    ensures forall y :: y in Insert(less, x, s) <==> y == x || y in s
  {
    if s != [] && !less(x, s[0]) {
      InsertKeeps(less, x, s[1..]);
      assert s == [s[0]] + s[1..];
    }
  }

  lemma {:induction false} SortKeeps<T>(less: (T, T) -> bool, s: seq<T>)
    ensures multiset(Sort(less, s)) == multiset(s)
    ensures |Sort(less, s)| == |s|
    ensures forall y :: y in Sort(less, s) <==> y in s
  {
    if s != [] {
      SortKeeps(less, s[1..]);
      InsertKeeps(less, s[0], Sort(less, s[1..]));
      assert s == [s[0]] + s[1..];
      assert |multiset(Sort(less, s))| == |multiset(s)|;
    }
  }

  lemma {:induction false} InsertSorts<T(!new)>(less: (T, T) -> bool, x: T, s: seq<T>)
    requires StrictOrder(less) && StrictlySorted(less, s)
    requires forall y :: y in s ==> less(x, y) || less(y, x)
    ensures StrictlySorted(less, Insert(less, x, s))
  {
    if s != [] {
      if less(x, s[0]) {
        forall j | 0 <= j < |s| ensures less(x, s[j]) {}
      } else {
        InsertSorts(less, x, s[1..]);
        InsertKeeps(less, x, s[1..]);
        var rest := Insert(less, x, s[1..]);
        forall j | 0 <= j < |rest| ensures less(s[0], rest[j]) {
          assert rest[j] in rest;
        }
      }
    }
  }

  lemma {:induction false} SortSorts<T(!new)>(less: (T, T) -> bool, s: seq<T>)
    requires StrictOrder(less) && Comparable(less, s)
    ensures StrictlySorted(less, Sort(less, s))
  {
    if s != [] {
      assert Comparable(less, s[1..]) by {
        forall i, j | 0 <= i < j < |s[1..]| ensures less(s[1..][i], s[1..][j]) || less(s[1..][j], s[1..][i]) {
          assert s[1..][i] == s[i + 1] && s[1..][j] == s[j + 1];
        }
      }
      SortSorts(less, s[1..]);
      SortKeeps(less, s[1..]);
      InsertSorts(less, s[0], Sort(less, s[1..]));
    }
  }

  lemma {:induction false} LeastOf<T(!new)>(less: (T, T) -> bool, s: set<T>) returns (m: T)
    requires StrictOrder(less) && Total(less) && s != {}
    ensures m in s && forall x :: x in s ==> x == m || less(m, x)
    decreases s
  {
    m :| m in s;
    if s != {m} {
      var least := LeastOf(less, s - {m});
      if less(least, m) { m := least; }
    }
  }

  /** The one sorted listing of a finite set. */
  ghost function Listing<T(!new)>(less: (T, T) -> bool, s: set<T>): (r: seq<T>)
    requires StrictOrder(less) && Total(less)
    ensures StrictlySorted(less, r)
    ensures forall x :: x in r <==> x in s
    decreases s
  {
    if s == {} then []
    else
      assert exists m :: m in s && forall x :: x in s ==> x == m || less(m, x) by {
        var m := LeastOf(less, s);
      }
      var m :| m in s && forall x :: x in s ==> x == m || less(m, x);
      [m] + Listing(less, s - {m})
  }

  /** Lexicographic order by the order of the elements. */
  predicate LexBy<T(==)>(less: (T, T) -> bool, a: seq<T>, b: seq<T>) {
    if b == [] then false
    else if a == [] then true
    else if a[0] != b[0] then less(a[0], b[0])
    else LexBy(less, a[1..], b[1..])
  }

  lemma {:induction false} LexByTransitive<T(!new)>(less: (T, T) -> bool, a: seq<T>, b: seq<T>, c: seq<T>)
    requires StrictOrder(less) && LexBy(less, a, b) && LexBy(less, b, c)
    ensures LexBy(less, a, c)
  {
    if a != [] && a[0] == b[0] && b[0] == c[0] {
      LexByTransitive(less, a[1..], b[1..], c[1..]);
    }
  }

  lemma {:induction false} LexByTotal<T(!new)>(less: (T, T) -> bool, a: seq<T>, b: seq<T>)
    requires StrictOrder(less) && Total(less)
    ensures LexBy(less, a, b) || a == b || LexBy(less, b, a)
    ensures !LexBy(less, a, a)
  {
    if a != [] {
      LexByTotal(less, a[1..], a[1..]);
    }
    if a != [] && b != [] && a[0] == b[0] {
      LexByTotal(less, a[1..], b[1..]);
      assert a == [a[0]] + a[1..] && b == [b[0]] + b[1..];
    }
  }

  /** The first difference is at `k`: there `a` ends, or has the smaller element. */
  predicate FirstDiffersAt<T(==)>(less: (T, T) -> bool, a: seq<T>, b: seq<T>, k: nat) {
    && k <= |a| && k < |b| && a[..k] == b[..k]
    && (k < |a| ==> a[k] != b[k] && less(a[k], b[k]))
  }

  /** Which is how the order is described: by the first difference. */
  lemma {:induction false} LexByIsFirstDifference<T(!new)>(less: (T, T) -> bool, a: seq<T>, b: seq<T>)
    ensures LexBy(less, a, b) <==> exists k :: FirstDiffersAt(less, a, b, k)
  {
    if a != [] && b != [] && a[0] == b[0] {
      LexByIsFirstDifference(less, a[1..], b[1..]);
      if k: nat :| FirstDiffersAt(less, a, b, k) {
        DiffersLater(less, a, b, k);
      }
      if k: nat :| FirstDiffersAt(less, a[1..], b[1..], k) {
        DiffersEarlier(less, a, b, k);
      }
    } else if b != [] && (a == [] || less(a[0], b[0])) {
      assert FirstDiffersAt(less, a, b, 0);
    }
  }

  lemma DiffersLater<T(!new)>(less: (T, T) -> bool, a: seq<T>, b: seq<T>, k: nat)
    requires a != [] && b != [] && a[0] == b[0] && FirstDiffersAt(less, a, b, k)
    ensures k > 0 && FirstDiffersAt(less, a[1..], b[1..], k - 1)
  {
    assert k > 0;
    assert a[1..][..k - 1] == a[..k][1..] && b[1..][..k - 1] == b[..k][1..];
  }

  lemma DiffersEarlier<T(!new)>(less: (T, T) -> bool, a: seq<T>, b: seq<T>, k: nat)
    requires a != [] && b != [] && a[0] == b[0] && FirstDiffersAt(less, a[1..], b[1..], k)
    ensures FirstDiffersAt(less, a, b, k + 1)
  {
    assert a[..k + 1] == [a[0]] + a[1..][..k] && b[..k + 1] == [b[0]] + b[1..][..k];
  }

  predicate CharLess(a: char, b: char) {
    a < b
  }

  /** The order Go compares strings by. */
  predicate TextLess(a: string, b: string) {
    LexBy(CharLess, a, b)
  }

  lemma TextLessIsTotalOrder()
    ensures StrictOrder(TextLess) && Total(TextLess)
  {
    forall a: string, b: string ensures (TextLess(a, b) || a == b || TextLess(b, a)) && !TextLess(a, a) {
      LexByTotal(CharLess, a, b);
    }
    forall a: string, b: string, c: string | TextLess(a, b) && TextLess(b, c) ensures TextLess(a, c) {
      LexByTransitive(CharLess, a, b, c);
    }
  }

  /** A text is less than its extensions, and otherwise by its first character that
      differs. */
  lemma TextLessIsFirstDifference(a: string, b: string)
    ensures TextLess(a, b) <==> exists k: nat ::
      k <= |a| && k < |b| && a[..k] == b[..k] && (k < |a| ==> a[k] < b[k])
  {
    LexByIsFirstDifference(CharLess, a, b);
    if k: nat :| k <= |a| && k < |b| && a[..k] == b[..k] && (k < |a| ==> a[k] < b[k]) {
      assert FirstDiffersAt(CharLess, a, b, k);
    }
    if k: nat :| FirstDiffersAt(CharLess, a, b, k) {
      assert k < |a| ==> CharLess(a[k], b[k]);
    }
  }

  /** Comparing field by field, the first difference decides. */
  predicate FieldsLess(a: seq<string>, b: seq<string>) {
    LexBy(TextLess, a, b)
  }

  lemma FieldsLessIsTotalOrder()
    ensures StrictOrder(FieldsLess) && Total(FieldsLess)
  {
    TextLessIsTotalOrder();
    forall a: seq<string>, b: seq<string>
      ensures (FieldsLess(a, b) || a == b || FieldsLess(b, a)) && !FieldsLess(a, a)
    {
      LexByTotal(TextLess, a, b);
    }
    forall a: seq<string>, b: seq<string>, c: seq<string> | FieldsLess(a, b) && FieldsLess(b, c) ensures FieldsLess(a, c) {
      LexByTransitive(TextLess, a, b, c);
    }
  }

  /** Of two lists of as many fields, the first field that differs decides. */
  lemma FieldsLessIsFirstDifference(a: seq<string>, b: seq<string>)
    requires |a| == |b|
    ensures FieldsLess(a, b) <==> exists k: nat :: k < |a| && a[..k] == b[..k] && TextLess(a[k], b[k])
  {
    LexByIsFirstDifference(TextLess, a, b);
    TextLessIsTotalOrder();
    if k: nat :| k < |a| && a[..k] == b[..k] && TextLess(a[k], b[k]) {
      assert FirstDiffersAt(TextLess, a, b, k);
    }
  }
}
