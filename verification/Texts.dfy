/** The string operations of Go's standard library that the models share. */
module Texts {
  import opened Sequences

  /** unicode.IsSpace */
  predicate IsSpaceChar(c: char) {
    var u := c as int;
    || 9 <= u <= 13 || u == 32 || u == 0x85 || u == 0xA0 || u == 0x1680 || 0x2000 <= u <= 0x200A
    || u == 0x2028 || u == 0x2029 || u == 0x202F || u == 0x205F || u == 0x3000
  }

  /** strings.TrimSpace */
  function TrimSpace(s: string): string {
    Trim(IsSpaceChar, s)
  }

  /** Case mapping of the ASCII letters; other characters stay. */
  function LowerChar(c: char): char {
    if 'A' <= c <= 'Z' then (c as int + 32) as char else c
  }

  function UpperChar(c: char): char {
    if 'a' <= c <= 'z' then (c as int - 32) as char else c
  }

  function ToLower(s: string): string {
    seq(|s|, i requires 0 <= i < |s| => LowerChar(s[i]))
  }

  function ToUpper(s: string): string {
    seq(|s|, i requires 0 <= i < |s| => UpperChar(s[i]))
  }

  /** The same character up to ASCII case. */
  predicate SameLetter(c: char, d: char) {
    || c == d
    || ('A' <= c <= 'Z' && d as int == c as int + 32)
    || ('a' <= c <= 'z' && d as int == c as int - 32)
  }

  predicate SameLetters(a: string, b: string) {
    |a| == |b| && forall i :: 0 <= i < |a| ==> SameLetter(a[i], b[i])
  }

  predicate HasNoUpper(s: string) {
    forall i :: 0 <= i < |s| ==> !('A' <= s[i] <= 'Z')
  }

  predicate HasNoLower(s: string) {
    forall i :: 0 <= i < |s| ==> !('a' <= s[i] <= 'z')
  }

  /** Lower-casing gives the one text with the same letters and none in upper case. */
  lemma LowerIsExact(s: string, t: string)
    ensures t == ToLower(s) <==> SameLetters(s, t) && HasNoUpper(t)
  {
    if SameLetters(s, t) && HasNoUpper(t) {
      forall i | 0 <= i < |s| ensures t[i] == ToLower(s)[i] {
        assert SameLetter(s[i], t[i]);
      }
    }
  }

  /** Upper-casing gives the one with none in lower case. */
  lemma UpperIsExact(s: string, t: string)
    ensures t == ToUpper(s) <==> SameLetters(s, t) && HasNoLower(t)
  {
    if SameLetters(s, t) && HasNoLower(t) {
      forall i | 0 <= i < |s| ensures t[i] == ToUpper(s)[i] {
        assert SameLetter(s[i], t[i]);
      }
    }
  }

  /** strings.Cut: the text before and after the first `sep`, and "" after none. */
  function Cut(s: string, sep: char): (string, string) {
    if s == [] then ([], [])
    else if s[0] == sep then ([], s[1..])
    else var (before, after) := Cut(s[1..], sep); ([s[0]] + before, after)
  }

  lemma {:induction false} CutBeforeIsFree(s: string, sep: char)
    ensures Free(Cut(s, sep).0, sep)
  {
    if s != [] && s[0] != sep {
      CutBeforeIsFree(s[1..], sep);
    }
  }

  lemma {:induction false} CutOfFree(s: string, sep: char)
    requires Free(s, sep)
    ensures Cut(s, sep) == (s, [])
  {
    if s != [] {
      assert Free(s[1..], sep);
      CutOfFree(s[1..], sep);
      assert [s[0]] + s[1..] == s;
    }
  }

  lemma {:induction false} CutOfJoined(a: string, sep: char, b: string)
    requires Free(a, sep)
    ensures Cut(a + [sep] + b, sep) == (a, b)
  {
    var s := a + [sep] + b;
    if a == [] {
      assert s[1..] == b;
    } else {
      assert Free(a[1..], sep);
      assert s[1..] == a[1..] + [sep] + b;
      CutOfJoined(a[1..], sep, b);
      assert [a[0]] + a[1..] == a;
    }
  }

  lemma LongerThanAll(texts: set<string>) returns (k: nat)
    ensures forall t :: t in texts ==> |t| <= k
    decreases texts
  {
    k := 0;
    if texts != {} {
      var t :| t in texts;
      k := LongerThanAll(texts - {t});
      if |t| > k { k := |t|; }
    }
  }

  /** A text of letters that is none of `texts`. */
  lemma UnusedText(texts: set<string>) returns (x: string)
    ensures x !in texts && x != "" && forall i :: 0 <= i < |x| ==> x[i] == 'a'
  {
    var k := LongerThanAll(texts);
    x := seq(k + 1, i => 'a');
    assert |x| == k + 1;
  }
}
