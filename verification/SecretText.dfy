/** evaluateSecretString: a configuration value is searched for credentials; when
    all it holds are connection URIs with placeholders for credentials, what is
    left beside them is searched again. */
module SecretText {
  import opened Sequences
  import opened Texts

  // ------------------------------------------------------------ cutting ranges out

  datatype Range = Range(lo: nat, hi: nat)

  predicate Covered(ranges: seq<Range>, p: nat) {
    exists r :: r in ranges && r.lo <= p < r.hi
  }

  /** In order of their starts; they may overlap. */
  predicate RangesOk(val: string, ranges: seq<Range>) {
    && (forall i :: 0 <= i < |ranges| ==> ranges[i].lo < ranges[i].hi <= |val|)
    && (forall i, j :: 0 <= i < j < |ranges| ==> ranges[i].lo <= ranges[j].lo)
  }

  /** The characters from `a` to `b` that no range covers. */
  function Outside(val: string, ranges: seq<Range>, a: nat, b: nat): (s: string)
    requires a <= b <= |val|
    ensures |s| <= b - a
    decreases b
  {
    if a == b then []
    else Outside(val, ranges, a, b - 1) + if Covered(ranges, b - 1) then [] else [val[b - 1]]
  }

  lemma {:induction false} OutsideSplit(val: string, ranges: seq<Range>, a: nat, m: nat, b: nat)
    requires a <= m <= b <= |val|
    ensures Outside(val, ranges, a, b) == Outside(val, ranges, a, m) + Outside(val, ranges, m, b)
    decreases b
  {
    if m < b {
      OutsideSplit(val, ranges, a, m, b - 1);
    }
  }

  lemma {:induction false} OutsideOfFree(val: string, ranges: seq<Range>, a: nat, b: nat)
    requires a <= b <= |val| && forall p: nat :: a <= p < b ==> !Covered(ranges, p)
    ensures Outside(val, ranges, a, b) == val[a..b]
    decreases b
  {
    if a < b {
      OutsideOfFree(val, ranges, a, b - 1);
      assert val[a..b] == val[a..b - 1] + [val[b - 1]];
    }
  }

  lemma {:induction false} OutsideOfCovered(val: string, ranges: seq<Range>, a: nat, b: nat)
    requires a <= b <= |val| && forall p: nat :: a <= p < b ==> Covered(ranges, p)
    ensures Outside(val, ranges, a, b) == []
    decreases b
  {
    if a < b {
      OutsideOfCovered(val, ranges, a, b - 1);
    }
  }

  lemma OutsideIsShorter(val: string, ranges: seq<Range>)
    requires RangesOk(val, ranges) && ranges != []
    ensures |Outside(val, ranges, 0, |val|)| < |val|
  {
    var p := ranges[0].lo;
    assert ranges[0] in ranges && Covered(ranges, p);
    OutsideSplit(val, ranges, 0, p + 1, |val|);
    assert |Outside(val, ranges, 0, p + 1)| == |Outside(val, ranges, 0, p)|;
  }

  /** The builder loop: it keeps exactly the characters outside all ranges, also
      when ranges overlap or lie inside one another. */
  method StripRanges(val: string, ranges: seq<Range>) returns (kept: string)
    requires RangesOk(val, ranges)
    ensures kept == Outside(val, ranges, 0, |val|)
  {
    kept := [];
    var lastIdx: nat := 0;
    for i := 0 to |ranges|
      invariant lastIdx <= |val|
      invariant forall j :: 0 <= j < i ==> ranges[j].hi <= lastIdx
      invariant kept == Outside(val, ranges, 0, lastIdx)
    {
      var r := ranges[i];
      if r.lo > lastIdx {
        BetweenIsFree(val, ranges, i, lastIdx, r.lo);
        OutsideSplit(val, ranges, 0, lastIdx, r.lo);
        kept := kept + val[lastIdx..r.lo];
      }
      if r.hi > lastIdx {
        ghost var from := if r.lo > lastIdx then r.lo else lastIdx;
        InsideIsDropped(val, ranges, i, from, r.hi);
        OutsideSplit(val, ranges, 0, from, r.hi);
        lastIdx := r.hi;
      }
    }
    BetweenIsFree(val, ranges, |ranges|, lastIdx, |val|);
    OutsideSplit(val, ranges, 0, lastIdx, |val|);
    if lastIdx < |val| {
      kept := kept + val[lastIdx..];
    }
  }

  lemma InsideIsDropped(val: string, ranges: seq<Range>, i: nat, a: nat, b: nat)
    requires i < |ranges| && ranges[i].lo <= a <= b <= ranges[i].hi && b <= |val|
    ensures Outside(val, ranges, a, b) == []
  {
    assert ranges[i] in ranges;
    OutsideOfCovered(val, ranges, a, b);
  }

  lemma BetweenIsFree(val: string, ranges: seq<Range>, i: nat, a: nat, b: nat)
    requires RangesOk(val, ranges) && i <= |ranges| && a <= b <= |val|
    requires forall j :: 0 <= j < i ==> ranges[j].hi <= a
    requires i < |ranges| ==> b <= ranges[i].lo
    ensures Outside(val, ranges, a, b) == val[a..b]
  {
    OutsideOfFree(val, ranges, a, b);
  }

  /** What is kept are the characters no range covers, each in its place. */
  lemma {:induction false} OutsideInPlace(val: string, ranges: seq<Range>, b: nat) returns (at: seq<nat>)
    requires b <= |val|
    ensures Ascending(at, b) && |at| == |Outside(val, ranges, 0, b)|
    ensures forall k :: 0 <= k < |at| ==> Outside(val, ranges, 0, b)[k] == val[at[k]]
    ensures forall p: nat :: p < b ==> (p in at <==> forall r :: r in ranges ==> !(r.lo <= p < r.hi))
  {
    at := [];
    if b > 0 {
      at := OutsideInPlace(val, ranges, b - 1);
      AscendingMore(at, b - 1);
      if !Covered(ranges, b - 1) { at := at + [b - 1]; }
    }
  }

  // --------------------------------------------------------------- matched URIs

  /** A match of the URI pattern with its user and password groups. */
  datatype Loc = Loc(lo: nat, userLo: nat, userHi: nat, passLo: nat, passHi: nat, hi: nat)

  /** One of the patterns tried before the URI pattern. */
  datatype Rule = Rule(id: string, matches: string -> bool)

  /** The regular expressions and what is built from them alone. */
  datatype Patterns = Patterns(
    rules: seq<Rule>,
    uris: string -> seq<Loc>,
    startsUri: string -> bool,
    authExposed: (string, string) -> bool,
    queryExposed: string -> bool,
    harmless: string -> bool,
    sensitiveKey: string -> bool)

  /** The groups inside the match and in order, an "@" after the password. */
  predicate LocOk(val: string, l: Loc) {
    l.lo < l.userLo <= l.userHi < l.passLo <= l.passHi < l.hi <= |val|
  }

  /** What FindAll guarantees of the URI pattern: non-overlapping matches from left
      to right. */
  predicate LocsOk(val: string, locs: seq<Loc>) {
    && (forall i :: 0 <= i < |locs| ==> LocOk(val, locs[i]))
    && (forall i, j :: 0 <= i < j < |locs| ==> locs[i].hi <= locs[j].lo)
  }

  ghost predicate Finds(o: Patterns) {
    forall val :: LocsOk(val, o.uris(val))
  }

  predicate IsSchemeByte(c: char) {
    'a' <= c <= 'z' || 'A' <= c <= 'Z' || '0' <= c <= '9' || c == '+' || c == '.' || c == '-'
  }

  predicate IsBlank(c: char) {
    c == ' ' || c == '\t' || c == '\r' || c == '\n'
  }

  predicate IsQuote(c: char) {
    c == '"' || c == '\'' || c == '`'
  }

  predicate IsDelimiter(c: char) {
    c == ',' || c == ';' || c == '|'
  }

  /** The URI that began earlier ends before `pos`. */
  predicate EndsAt(o: Patterns, val: string, pos: nat)
    requires 0 < pos < |val|
  {
    || IsBlank(val[pos]) || IsQuote(val[pos])
    || (IsDelimiter(val[pos]) && o.startsUri(TrimLeft(IsBlank, val[pos + 1..])))
    || (!IsSchemeByte(val[pos - 1]) && o.startsUri(val[pos..]))
  }

  /** The first end from `pos` on. */
  function UriEnd(o: Patterns, val: string, pos: nat): (end: nat)
    requires 0 < pos <= |val|
    ensures pos <= end <= |val|
    ensures end < |val| ==> EndsAt(o, val, end)
    ensures forall q :: pos <= q < end ==> !EndsAt(o, val, q)
    decreases |val| - pos
  {
    if pos == |val| || EndsAt(o, val, pos) then pos else UriEnd(o, val, pos + 1)
  }

  /** A real user, password or query credential in the URI at `l`. */
  predicate Exposed(o: Patterns, val: string, l: Loc)
    requires LocOk(val, l)
  {
    || o.authExposed(val[l.userLo..l.userHi], val[l.passLo..l.passHi])
    || o.queryExposed(val[l.passHi + 1..UriEnd(o, val, l.hi)])
  }

  function SafeRanges(o: Patterns, val: string, locs: seq<Loc>): (ranges: seq<Range>)
    requires LocsOk(val, locs)
    ensures RangesOk(val, ranges)
    ensures locs != [] ==> forall r :: r in ranges ==> r.lo <= locs[|locs| - 1].lo
  {
    if locs == [] then []
    else
      var n := |locs| - 1;
      var init := SafeRanges(o, val, locs[..n]);
      if Exposed(o, val, locs[n]) then init else init + [Range(locs[n].lo, UriEnd(o, val, locs[n].hi))]
  }

  predicate AnyExposed(o: Patterns, val: string, locs: seq<Loc>)
    requires LocsOk(val, locs)
  {
    exists i :: 0 <= i < |locs| && Exposed(o, val, locs[i])
  }

  method FindUriEnd(o: Patterns, val: string, start: nat) returns (pos: nat)
    requires 0 < start <= |val|
    ensures pos == UriEnd(o, val, start)
  {
    pos := start;
    while pos < |val|
      invariant start <= pos <= |val|
      invariant UriEnd(o, val, start) == UriEnd(o, val, pos)
    {
      if IsBlank(val[pos]) || IsQuote(val[pos]) {
        break;
      }
      if IsDelimiter(val[pos]) && o.startsUri(TrimLeft(IsBlank, val[pos + 1..])) {
        break;
      }
      if !IsSchemeByte(val[pos - 1]) && o.startsUri(val[pos..]) {
        break;
      }
      pos := pos + 1;
    }
  }

  method ExamineUri(o: Patterns, val: string, loc: Loc) returns (exposed: bool, pos: nat)
    requires LocOk(val, loc)
    ensures exposed == Exposed(o, val, loc)
    ensures pos == UriEnd(o, val, loc.hi)
  {
    var user, pass := val[loc.userLo..loc.userHi], val[loc.passLo..loc.passHi];
    var isAuthExposed := o.authExposed(user, pass);
    pos := FindUriEnd(o, val, loc.hi);
    var queryExposed := o.queryExposed(val[loc.passHi + 1..pos]);
    exposed := isAuthExposed || queryExposed;
  }

  method HasExposedUriCredentials(o: Patterns, val: string)
    returns (hasMatch: bool, hasExposed: bool, safeRanges: seq<Range>)
    requires LocsOk(val, o.uris(val))
    ensures hasMatch <==> o.uris(val) != []
    ensures hasExposed <==> AnyExposed(o, val, o.uris(val))
    ensures safeRanges == SafeRanges(o, val, o.uris(val))
  {
    var locs := o.uris(val);
    hasMatch, hasExposed, safeRanges := false, false, [];
    if |locs| == 0 {
      return;
    }
    hasMatch := true;
    for i := 0 to |locs|
      invariant Examined(o, val, locs[..i], hasExposed, safeRanges)
    {
      var loc := locs[i];
      var exposed, pos := ExamineUri(o, val, loc);
      ExamineStep(o, val, locs, i, hasExposed, safeRanges);
      if exposed {
        hasExposed := true;
      } else {
        safeRanges := safeRanges + [Range(loc.lo, pos)];
      }
    }
    assert locs[..|locs|] == locs;
  }

  /** What the loop has found in the matches so far. */
  ghost predicate Examined(o: Patterns, val: string, locs: seq<Loc>, hasExposed: bool, safeRanges: seq<Range>)
    requires LocsOk(val, locs)
  {
    (hasExposed <==> AnyExposed(o, val, locs)) && safeRanges == SafeRanges(o, val, locs)
  }

  lemma ExamineStep(o: Patterns, val: string, locs: seq<Loc>, i: nat, hasExposed: bool, safeRanges: seq<Range>)
    requires LocsOk(val, locs) && i < |locs| && LocOk(val, locs[i])
    requires Examined(o, val, locs[..i], hasExposed, safeRanges)
    ensures if Exposed(o, val, locs[i])
            then Examined(o, val, locs[..i + 1], true, safeRanges)
            else Examined(o, val, locs[..i + 1], hasExposed, safeRanges + [Range(locs[i].lo, UriEnd(o, val, locs[i].hi))])
  {
    OneMoreUri(o, val, locs, i);
    OneMoreRange(o, val, locs, i);
  }

  lemma OneMoreRange(o: Patterns, val: string, locs: seq<Loc>, i: nat)
    requires LocsOk(val, locs) && i < |locs| && LocOk(val, locs[i])
    ensures SafeRanges(o, val, locs[..i + 1]) == SafeRanges(o, val, locs[..i])
            + if Exposed(o, val, locs[i]) then [] else [Range(locs[i].lo, UriEnd(o, val, locs[i].hi))]
  {
    assert locs[..i + 1][..i] == locs[..i];
  }

  lemma OneMoreUri(o: Patterns, val: string, locs: seq<Loc>, i: nat)
    requires LocsOk(val, locs) && i < |locs| && LocOk(val, locs[i])
    ensures AnyExposed(o, val, locs[..i + 1]) <==> AnyExposed(o, val, locs[..i]) || Exposed(o, val, locs[i])
  {
    assert forall j :: 0 <= j < i ==> locs[..i + 1][j] == locs[..i][j];
    assert locs[..i + 1][i] == locs[i];
  }

  // ---------------------------------------------------------------- the verdict

  datatype Verdict = Clean | Leak(ruleId: string)

  predicate IsSeparator(c: char) {
    IsBlank(c) || IsQuote(c) || IsDelimiter(c)
  }

  /** What is left of `val` beside its safe URIs. */
  function Remaining(o: Patterns, val: string): string
    requires LocsOk(val, o.uris(val))
  {
    Trim(IsSeparator, Outside(val, SafeRanges(o, val, o.uris(val)), 0, |val|))
  }

  lemma RangesOfSafe(o: Patterns, val: string, locs: seq<Loc>)
    requires LocsOk(val, locs) && locs != [] && !AnyExposed(o, val, locs)
    ensures SafeRanges(o, val, locs) != []
  {
    var n := |locs| - 1;
    assert !Exposed(o, val, locs[n]);
  }

  /** So the search ends. */
  lemma RemainingIsShorter(o: Patterns, val: string)
    requires LocsOk(val, o.uris(val)) && o.uris(val) != [] && !AnyExposed(o, val, o.uris(val))
    ensures |Remaining(o, val)| < |val|
  {
    var ranges := SafeRanges(o, val, o.uris(val));
    RangesOfSafe(o, val, o.uris(val));
    OutsideIsShorter(val, ranges);
    TrimIsPart(IsSeparator, Outside(val, ranges, 0, |val|));
  }

  predicate EndsWith(s: string, suffix: string) {
    |suffix| <= |s| && s[|s| - |suffix|..] == suffix
  }

  /** The verdict by the key alone, when nothing in the value told. */
  function ByKey(o: Patterns, key: string, val: string): Verdict {
    var upper := ToUpper(key);
    var isPathKey := upper == "PWD" || EndsWith(upper, "_PWD") || upper == "GOOGLE_APPLICATION_CREDENTIALS";
    if o.harmless(val) || !o.sensitiveKey(key) then Clean
    else if isPathKey && "/" <= TrimSpace(val) then Clean
    else Leak("ENV_CREDENTIAL_KEYWORD")
  }

  function FirstRule(rules: seq<Rule>, val: string): Verdict {
    if rules == [] then Clean
    else if rules[0].matches(val) then Leak(rules[0].id)
    else FirstRule(rules[1..], val)
  }

  function Judge(o: Patterns, key: string, val: string): Verdict
    requires Finds(o)
    decreases |val|
  {
    var locs := o.uris(val);
    var byRule := FirstRule(o.rules, val);
    if byRule.Leak? then byRule
    else if AnyExposed(o, val, locs) then Leak("URI_CREDENTIALS")
    else if locs == [] then ByKey(o, key, val)
    else
      RemainingIsShorter(o, val);
      var rest := Remaining(o, val);
      if rest == [] then Clean else Judge(o, key, rest)
  }

  method EvaluateSecretString(o: Patterns, key: string, val: string) returns (verdict: Verdict)
    requires Finds(o)
    ensures verdict == Judge(o, key, val)
    decreases |val|
  {
    for i := 0 to |o.rules|
      invariant FirstRule(o.rules, val) == FirstRule(o.rules[i..], val)
    {
      if o.rules[i].matches(val) {
        return Leak(o.rules[i].id);
      }
      assert o.rules[i..][1..] == o.rules[i + 1..];
    }
    var hasMatch, hasExposed, safeRanges := HasExposedUriCredentials(o, val);
    if hasExposed {
      return Leak("URI_CREDENTIALS");
    }
    if hasMatch {
      var kept := StripRanges(val, safeRanges);
      var remaining := Trim(IsSeparator, kept);
      if remaining == [] {
        return Clean;
      }
      RemainingIsShorter(o, val);
      verdict := EvaluateSecretString(o, key, remaining);
      return;
    }
    return ByKey(o, key, val);
  }

  // ---------------------------------------------------------- nothing is missed

  predicate GoesOn(o: Patterns, val: string)
    requires Finds(o)
  {
    o.uris(val) != [] && !AnyExposed(o, val, o.uris(val)) && Remaining(o, val) != []
  }

  /** The value, and what is left of it round after round. */
  function Rounds(o: Patterns, val: string): (rounds: seq<string>)
    requires Finds(o)
    ensures rounds != []
    decreases |val|
  {
    if !GoesOn(o, val) then [val] else RemainingIsShorter(o, val); [val] + Rounds(o, Remaining(o, val))
  }

  predicate RuleMatches(o: Patterns, text: string) {
    exists i :: 0 <= i < |o.rules| && o.rules[i].matches(text)
  }

  /** A credential shows in the text itself. */
  ghost predicate Shows(o: Patterns, text: string)
    requires Finds(o)
  {
    RuleMatches(o, text) || AnyExposed(o, text, o.uris(text))
  }

  lemma {:induction false} FirstRuleFinds(rules: seq<Rule>, val: string)
    ensures FirstRule(rules, val).Leak? <==> exists i :: 0 <= i < |rules| && rules[i].matches(val)
  {
    if rules != [] {
      FirstRuleFinds(rules[1..], val);
      if i :| 0 <= i < |rules| && rules[i].matches(val) {
        assert i > 0 ==> rules[1..][i - 1] == rules[i];
      }
      if i :| 0 <= i < |rules[1..]| && rules[1..][i].matches(val) {
        assert rules[i + 1].matches(val);
      }
    }
  }

  ghost predicate SomeShows(o: Patterns, texts: seq<string>)
    requires Finds(o)
  {
    exists i :: 0 <= i < |texts| && Shows(o, texts[i])
  }

  lemma SomeShowsFirst(o: Patterns, text: string, texts: seq<string>)
    requires Finds(o)
    ensures SomeShows(o, [text] + texts) <==> Shows(o, text) || SomeShows(o, texts)
  {
    var all := [text] + texts;
    assert all[0] == text && forall i :: 0 <= i < |texts| ==> all[i + 1] == texts[i];
  }

  /** The key names a path rather than a secret. */
  ghost predicate NamesPath(key: string) {
    var upper := ToUpper(key);
    upper == "PWD" || upper == "GOOGLE_APPLICATION_CREDENTIALS" || exists stem :: upper == stem + "_PWD"
  }

  /** After any blanks the text goes on with a slash. */
  predicate StartsWithSlash(text: string) {
    exists k :: 0 <= k < |text| && text[k] == '/' && AllBlank(IsSpaceChar, text[..k])
  }

  lemma EndsWithIff(s: string, suffix: string)
    ensures EndsWith(s, suffix) <==> exists stem :: s == stem + suffix
  {
    if EndsWith(s, suffix) {
      assert s == s[..|s| - |suffix|] + suffix;
    }
  }

  lemma SlashIff(text: string)
    ensures "/" <= TrimSpace(text) <==> StartsWithSlash(text)
  {
    var i, j := TrimCut(IsSpaceChar, text);
    if "/" <= TrimSpace(text) {
      assert text[i..j][0] == text[i];
      assert AllBlank(IsSpaceChar, text[..i]);
    }
    if k :| 0 <= k < |text| && text[k] == '/' && AllBlank(IsSpaceChar, text[..k]) {
      assert !IsSpaceChar(text[k]);
      assert forall m :: 0 <= m < k ==> text[..k][m] == text[m];
      assert i == k;
      assert text[i..j][0] == '/';
    }
  }

  /** The key gives the text away: it reads like a secret's, the text is not known to be
      harmless, and it is not a path under a key that names one. */
  ghost predicate KeyTells(o: Patterns, key: string, text: string) {
    && o.uris(text) == [] && o.sensitiveKey(key) && !o.harmless(text)
    && !(NamesPath(key) && StartsWithSlash(text))
  }

  lemma KeyTellsIff(o: Patterns, key: string, text: string)
    requires o.uris(text) == []
    ensures ByKey(o, key, text) == if KeyTells(o, key, text) then Leak("ENV_CREDENTIAL_KEYWORD") else Clean
  {
    EndsWithIff(ToUpper(key), "_PWD");
    SlashIff(text);
  }

  lemma OneRound(o: Patterns, key: string, val: string)
    requires Finds(o) && Rounds(o, val) == [val]
    ensures Judge(o, key, val).Leak? <==> Shows(o, val) || KeyTells(o, key, val)
  {
    FirstRuleFinds(o.rules, val);
    if o.uris(val) == [] { KeyTellsIff(o, key, val); }
  }

  lemma NextRound(o: Patterns, key: string, val: string)
    requires Finds(o) && GoesOn(o, val)
    ensures Judge(o, key, val).Leak? <==> Shows(o, val) || Judge(o, key, Remaining(o, val)).Leak?
  {
    FirstRuleFinds(o.rules, val);
  }

  /** A credential shows in some round, or the key tells on the last. */
  ghost predicate Told(o: Patterns, key: string, rounds: seq<string>)
    requires Finds(o) && rounds != []
  {
    SomeShows(o, rounds) || KeyTells(o, key, rounds[|rounds| - 1])
  }

  lemma ToldLater(o: Patterns, key: string, text: string, rest: seq<string>)
    requires Finds(o) && rest != []
    ensures Told(o, key, [text] + rest) <==> Shows(o, text) || Told(o, key, rest)
  {
    SomeShowsFirst(o, text, rest);
    assert ([text] + rest)[|rest|] == rest[|rest| - 1];
  }

  lemma ToldAtOnce(o: Patterns, key: string, text: string)
    requires Finds(o)
    ensures Told(o, key, [text]) <==> Shows(o, text) || KeyTells(o, key, text)
  {
    SomeShowsFirst(o, text, []);
    assert [text] + [] == [text];
  }

  /** A value is a leak exactly when a credential shows in it or in what is left of
      it in some round, or its key gives away what is left in the end. */
  lemma {:induction false} VerdictIsExact(o: Patterns, key: string, val: string)
    requires Finds(o)
    ensures Judge(o, key, val).Leak? <==> Told(o, key, Rounds(o, val))
    decreases |val|
  {
    if GoesOn(o, val) {
      var rest := Remaining(o, val);
      RemainingIsShorter(o, val);
      VerdictIsExact(o, key, rest);
      NextRound(o, key, val);
      ToldLater(o, key, val, Rounds(o, rest));
    } else {
      OneRound(o, key, val);
      ToldAtOnce(o, key, val);
    }
  }

  /** Between rounds only safe URIs and separators are given up: the remainder is
      one stretch of the characters outside the safe ranges, and what is cut off at
      its ends is blanks, quotes and delimiters. */
  lemma OnlySeparatorsAreTrimmed(o: Patterns, val: string) returns (i: nat, j: nat)
    requires LocsOk(val, o.uris(val))
    ensures var out := Outside(val, SafeRanges(o, val, o.uris(val)), 0, |val|);
            && i <= j <= |out| && Remaining(o, val) == out[i..j]
            && (forall k :: 0 <= k < |out| && !(i <= k < j) ==> IsSeparator(out[k]))
            && (i < j ==> !IsSeparator(out[i]) && !IsSeparator(out[j - 1]))
  {
    i, j := TrimCut(IsSeparator, Outside(val, SafeRanges(o, val, o.uris(val)), 0, |val|));
  }

  // ------------------------------------------------------------- which verdict it is

  lemma LastOfMore(text: string, rest: seq<string>)
    requires rest != []
    ensures ([text] + rest)[|[text] + rest| - 1] == rest[|rest| - 1]
  {
  }

  /** The last text of the search, and the verdict on it. */
  lemma {:induction false} JudgedLast(o: Patterns, key: string, val: string)
    requires Finds(o) && !SomeShows(o, Rounds(o, val))
    ensures var rounds := Rounds(o, val);
            var last := rounds[|rounds| - 1];
            Judge(o, key, val) == Judge(o, key, last) && !Shows(o, last) && !GoesOn(o, last)
    decreases |val|
  {
    if GoesOn(o, val) {
      var rest := Remaining(o, val);
      RemainingIsShorter(o, val);
      SomeShowsFirst(o, val, Rounds(o, rest));
      PassedOn(o, key, val);
      JudgedLast(o, key, rest);
      LastOfMore(val, Rounds(o, rest));
    } else {
      SomeShowsFirst(o, val, []);
      assert [val] + [] == [val];
    }
  }

  lemma KeyDecidesAtOnce(o: Patterns, key: string, text: string)
    requires Finds(o) && !Shows(o, text) && o.uris(text) == []
    ensures Judge(o, key, text) == if KeyTells(o, key, text) then Leak("ENV_CREDENTIAL_KEYWORD") else Clean
  {
    FirstRuleFinds(o.rules, text);
    KeyTellsIff(o, key, text);
  }

  /** When no round shows a credential and no URI is left, the key decides. */
  lemma KeyDecides(o: Patterns, key: string, val: string)
    requires Finds(o) && !SomeShows(o, Rounds(o, val))
    requires var rounds := Rounds(o, val); o.uris(rounds[|rounds| - 1]) == []
    ensures var rounds := Rounds(o, val);
            Judge(o, key, val) == if KeyTells(o, key, rounds[|rounds| - 1]) then Leak("ENV_CREDENTIAL_KEYWORD") else Clean
  {
    var rounds := Rounds(o, val);
    JudgedLast(o, key, val);
    KeyDecidesAtOnce(o, key, rounds[|rounds| - 1]);
  }

  /** When nothing is left beside harmless URIs, the value is clean whatever its key. */
  lemma NothingLeftIsClean(o: Patterns, key: string, val: string)
    requires Finds(o) && !SomeShows(o, Rounds(o, val))
    requires var rounds := Rounds(o, val); o.uris(rounds[|rounds| - 1]) != []
    ensures Judge(o, key, val) == Clean
  {
    var rounds := Rounds(o, val);
    JudgedLast(o, key, val);
    FirstRuleFinds(o.rules, rounds[|rounds| - 1]);
  }

  predicate FirstMatches(rules: seq<Rule>, text: string, r: int) {
    0 <= r < |rules| && rules[r].matches(text) && forall q :: 0 <= q < r ==> !rules[q].matches(text)
  }

  /** The first of the rules that match, or the rule on URIs when none does. */
  ghost predicate NamedFor(o: Patterns, text: string, verdict: Verdict) {
    if RuleMatches(o, text)
    then exists r :: FirstMatches(o.rules, text, r) && verdict == Leak(o.rules[r].id)
    else verdict == Leak("URI_CREDENTIALS")
  }

  lemma ShowingIsNamed(o: Patterns, key: string, text: string)
    requires Finds(o) && Shows(o, text)
    ensures NamedFor(o, text, Judge(o, key, text))
  {
    FirstRuleFinds(o.rules, text);
    if RuleMatches(o, text) {
      var r := FirstMatch(o.rules, text);
      FirstRuleIs(o.rules, text, r);
    }
  }

  lemma {:induction false} FirstMatch(rules: seq<Rule>, text: string) returns (r: nat)
    requires exists i :: 0 <= i < |rules| && rules[i].matches(text)
    ensures FirstMatches(rules, text, r)
  {
    r := 0;
    while !rules[r].matches(text)
      invariant r < |rules| && forall q :: 0 <= q < r ==> !rules[q].matches(text)
      invariant exists i :: r <= i < |rules| && rules[i].matches(text)
      decreases |rules| - r
    {
      r := r + 1;
    }
  }

  lemma PassedOn(o: Patterns, key: string, val: string)
    requires Finds(o) && !Shows(o, val) && GoesOn(o, val)
    ensures Judge(o, key, val) == Judge(o, key, Remaining(o, val))
  {
    FirstRuleFinds(o.rules, val);
  }

  /** The first of the texts in which a credential shows. */
  ghost predicate FirstShows(o: Patterns, texts: seq<string>, n: nat)
    requires Finds(o)
  {
    n < |texts| && Shows(o, texts[n]) && forall i :: 0 <= i < n ==> !Shows(o, texts[i])
  }

  lemma ShowsLater(o: Patterns, text: string, rest: seq<string>, n: nat)
    requires Finds(o) && n > 0 && FirstShows(o, [text] + rest, n)
    ensures !Shows(o, text) && FirstShows(o, rest, n - 1) && ([text] + rest)[n] == rest[n - 1]
  {
    var all := [text] + rest;
    assert all[0] == text;
    assert forall i :: 0 <= i < |rest| ==> rest[i] == all[i + 1];
  }

  /** The rule a leak is reported under is the one for the first round that shows a
      credential. */
  lemma {:induction false} FirstShowingNames(o: Patterns, key: string, val: string, n: nat)
    requires Finds(o) && FirstShows(o, Rounds(o, val), n)
    ensures NamedFor(o, Rounds(o, val)[n], Judge(o, key, val))
    decreases n
  {
    if n == 0 {
      ShowingIsNamed(o, key, val);
    } else {
      var rest := Remaining(o, val);
      ShowsLater(o, val, Rounds(o, rest), n);
      PassedOn(o, key, val);
      FirstShowingNames(o, key, rest, n - 1);
    }
  }

  lemma {:induction false} FirstRuleIs(rules: seq<Rule>, val: string, r: nat)
    requires FirstMatches(rules, val, r)
    ensures FirstRule(rules, val) == Leak(rules[r].id)
  {
    if r > 0 {
      assert !rules[0].matches(val);
      assert forall q :: 0 <= q < r - 1 ==> rules[1..][q] == rules[q + 1];
      FirstRuleIs(rules[1..], val, r - 1);
    }
  }

  // -------------------------------------------------------------- what a URI shows

  /** Where a URI has ended: at a blank or a quote, at a delimiter behind which, blanks
      aside, another URI starts, or where one starts after a character no scheme has. */
  lemma EndsAtIff(o: Patterns, before: string, c: char, blanks: string, rest: string)
    requires before != [] && AllBlank(IsBlank, blanks) && (rest == [] || !IsBlank(rest[0]))
    ensures EndsAt(o, before + [c] + (blanks + rest), |before|)
       <==> || c in " \t\r\n\"'`"
            || (c in ",;|" && o.startsUri(rest))
            || (!IsSchemeByte(before[|before| - 1]) && o.startsUri([c] + (blanks + rest)))
  {
    var val := before + [c] + (blanks + rest);
    TrimLeftDrops(IsBlank, blanks, rest);
    assert val[|before|] == c && val[|before| - 1] == before[|before| - 1];
    assert val[|before| + 1..] == blanks + rest && val[|before|..] == [c] + (blanks + rest);
  }

  /** `end` is the first place from `from` on where the URI has ended. */
  predicate FirstEnd(o: Patterns, val: string, from: nat, end: nat)
    requires 0 < from <= |val|
  {
    && from <= end <= |val| && (end < |val| ==> EndsAt(o, val, end))
    && forall q :: from <= q < end ==> !EndsAt(o, val, q)
  }

  /** The URI at `i` shows nothing, and `r` is what it takes up. */
  predicate IsSafeUri(o: Patterns, val: string, locs: seq<Loc>, i: nat, r: Range)
    requires LocsOk(val, locs)
  {
    i < |locs| && !Exposed(o, val, locs[i]) && r.lo == locs[i].lo && FirstEnd(o, val, locs[i].hi, r.hi)
  }

  lemma UriEndIsFirst(o: Patterns, val: string, l: Loc, end: nat)
    requires LocOk(val, l)
    ensures FirstEnd(o, val, l.hi, end) <==> end == UriEnd(o, val, l.hi)
  {
  }

  lemma OneMoreSafeUri(o: Patterns, val: string, locs: seq<Loc>, r: Range)
    requires LocsOk(val, locs) && locs != []
    ensures var n := |locs| - 1;
            (exists i: nat :: IsSafeUri(o, val, locs, i, r))
            <==> (exists i: nat :: IsSafeUri(o, val, locs[..n], i, r)) || IsSafeUri(o, val, locs, n, r)
  {
    var n := |locs| - 1;
    forall i: nat | i < n ensures IsSafeUri(o, val, locs, i, r) <==> IsSafeUri(o, val, locs[..n], i, r) {
      assert locs[..n][i] == locs[i];
    }
    if i: nat :| IsSafeUri(o, val, locs[..n], i, r) { assert IsSafeUri(o, val, locs, i, r); }
  }

  lemma OneMoreSafeRange(o: Patterns, val: string, locs: seq<Loc>, r: Range)
    requires LocsOk(val, locs) && locs != []
    ensures var n := |locs| - 1;
            r in SafeRanges(o, val, locs) <==> r in SafeRanges(o, val, locs[..n]) || IsSafeUri(o, val, locs, n, r)
  {
    UriEndIsFirst(o, val, locs[|locs| - 1], r.hi);
  }

  /** The ranges cut out are the URIs that show nothing, each up to its end. */
  lemma {:induction false} RangesAreSafeUris(o: Patterns, val: string, locs: seq<Loc>, r: Range)
    requires LocsOk(val, locs)
    ensures r in SafeRanges(o, val, locs) <==> exists i: nat :: IsSafeUri(o, val, locs, i, r)
  {
    if locs != [] {
      RangesAreSafeUris(o, val, locs[..|locs| - 1], r);
      OneMoreSafeUri(o, val, locs, r);
      OneMoreSafeRange(o, val, locs, r);
    }
  }

  /** A URI shows a credential by its user and password, or by what stands between the
      "@" behind the password and its end. */
  lemma ExposedByParts(o: Patterns, val: string, l: Loc, end: nat, user: string, pass: string, rest: string)
    requires LocOk(val, l) && FirstEnd(o, val, l.hi, end)
    requires val[..l.userHi] == val[..l.userLo] + user && val[..l.passHi] == val[..l.passLo] + pass
    requires val[..end] == val[..l.passHi] + "@" + rest
    ensures Exposed(o, val, l) <==> o.authExposed(user, pass) || o.queryExposed(rest)
  {
    UriEndIsFirst(o, val, l, end);
    assert val[l.userLo..l.userHi] == val[..l.userHi][l.userLo..];
    assert val[l.passLo..l.passHi] == val[..l.passHi][l.passLo..];
    assert val[l.passHi + 1..end] == val[..end][l.passHi + 1..];
  }
}
