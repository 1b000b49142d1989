/** Which pathnames resolvePath resolves as POSIX does: those without a backslash,
    which the code takes for a separator. */
module Separators {
  import opened Sequences
  import opened Paths
  import opened Lexical
  import opened Texts

  /** On every file system whose links hold no backslash, the code finds exactly
      what POSIX resolution reaches within the bound on links. */
  ghost predicate AgreesWithPosix(cwd: string, path: string) {
    forall fs, loc | NoBackslash(fs) :: AgreesAt(fs, cwd, path, loc)
  }

  ghost predicate AgreesAt(fs: FileSystem, cwd: string, path: string, loc: Location) {
    ResolvePathSpec(fs, Dir(cwd), path) == Ok(loc)
    <==> exists n: nat :: n <= 64 && Resolves(PosixComponents, fs, [], PosixPath(cwd, path), n, loc)
  }

  // ------------------------------------------------------------- walks that meet no link

  function LastOf(at: Location): string
    requires at != []
  {
    at[|at| - 1]
  }

  /** No link is called by one of these names. */
  ghost predicate NamesNoLink(fs: FileSystem, cs: seq<string>) {
    forall at :: at in fs && at != [] ==> LastOf(at) !in cs
  }

  /** No link is below `x`. */
  ghost predicate NoLinkBelow(fs: FileSystem, x: string) {
    forall at :: at in fs && at != [] ==> at[0] != x
  }

  /** A walk over names no link has follows no link, and what comes after it goes on
      from where it ends. */
  lemma {:induction false} StepThrough(cut: string -> seq<string>, fs: FileSystem, base: Location, cs: seq<string>, rest: seq<string>,
                                       n: nat, loc: Location)
    requires NamesNoLink(fs, cs)
    ensures Resolves(cut, fs, base, cs + rest, n, loc) <==> Resolves(cut, fs, Clean(base, cs), rest, n, loc)
    decreases |cs|
  {
    if cs == [] {
      assert cs + rest == rest;
    } else {
      assert (cs + rest)[0] == cs[0] && (cs + rest)[1..] == cs[1..] + rest;
      var next := base + [cs[0]];
      assert LastOf(next) == cs[0] && cs[0] in cs;
      assert forall c :: c in cs[1..] ==> c in cs;
      if cs[0] == "." || cs[0] == "" { StepThrough(cut, fs, base, cs[1..], rest, n, loc); }
      else if cs[0] == ".." { StepThrough(cut, fs, Parent(base), cs[1..], rest, n, loc); }
      else { StepThrough(cut, fs, next, cs[1..], rest, n, loc); }
    }
  }

  lemma NoLinkMet(cut: string -> seq<string>, fs: FileSystem, base: Location, cs: seq<string>)
    requires NamesNoLink(fs, cs)
    ensures Resolves(cut, fs, base, cs, 0, Clean(base, cs))
  {
    assert cs + [] == cs;
    StepThrough(cut, fs, base, cs, [], 0, Clean(base, cs));
  }

  /** A walk that starts deep below `x` stays below it. */
  lemma {:induction false} StaysBelow(cut: string -> seq<string>, fs: FileSystem, x: string, base: Location, cs: seq<string>)
    requires NoLinkBelow(fs, x) && |base| > |cs| && base[0] == x
    ensures Resolves(cut, fs, base, cs, 0, Clean(base, cs))
    ensures Clean(base, cs) != [] && Clean(base, cs)[0] == x
    decreases |cs|
  {
    if cs != [] {
      var next := base + [cs[0]];
      assert next[0] == x;
      if cs[0] == "." || cs[0] == "" { StaysBelow(cut, fs, x, base, cs[1..]); }
      else if cs[0] == ".." { StaysBelow(cut, fs, x, Parent(base), cs[1..]); }
      else { StaysBelow(cut, fs, x, next, cs[1..]); }
    }
  }

  lemma {:induction false} CleanNames(base: Location, cs: seq<string>)
    ensures forall c :: c in Clean(base, cs) ==> c in base || c in cs
    decreases |cs|
  {
    if cs != [] {
      if cs[0] == "." || cs[0] == "" { CleanNames(base, cs[1..]); }
      else if cs[0] == ".." { CleanNames(Parent(base), cs[1..]); }
      else { CleanNames(base + [cs[0]], cs[1..]); }
    }
  }

  // ------------------------------------------------------------- names for the target

  /** A proper name none of `names` is. */
  lemma FreshName(names: seq<string>) returns (x: string)
    ensures ProperName(x) && x !in names
  {
    x := UnusedText(set name | name in names);
    assert x[0] == 'a';
  }

  /** The same name `k` times. */
  function Chain(x: string, k: nat): (r: Location)
    ensures |r| == k && forall c :: c in r ==> c == x
  {
    seq(k, i => x)
  }

  /** The pathname of a chain has the chain for its components, cut either way. */
  lemma ChainPath(x: string, k: nat)
    requires ProperName(x)
    ensures PosixComponents(Render(Chain(x, k))) == Chain(x, k) && '\\' !in Render(Chain(x, k)) && IsAbs(Render(Chain(x, k)))
  {
    var chain := Chain(x, k);
    SplitOfRender(chain);
    FreeJoin(chain, '/', '\\');
    assert Free(Join(chain, '/'), '\\');
    SplitPathIsPosix(Render(chain));
  }

  lemma {:induction false} CleanOfChain(base: Location, x: string, k: nat)
    requires ProperName(x)
    ensures Clean(base, Chain(x, k)) == base + Chain(x, k)
    decreases k
  {
    if k > 0 {
      assert Chain(x, k)[1..] == Chain(x, k - 1);
      CleanOfChain(base + [x], x, k - 1);
      assert base + [x] + Chain(x, k - 1) == base + Chain(x, k);
    } else {
      assert Chain(x, 0) == [];
    }
  }

  // ---------------------------------------------------------------------- the result

  predicate BackslashFree(cs: seq<string>) {
    forall c :: c in cs ==> Free(c, '\\')
  }

  /** The components cut at the first one with a backslash. */
  lemma {:induction false} CutAtBackslash(cs: seq<string>) returns (before: seq<string>, name: string, after: seq<string>)
    requires !BackslashFree(cs)
    ensures cs == before + ([name] + after) && BackslashFree(before) && !Free(name, '\\') && name in cs
    ensures forall c :: c in before ==> c in cs
  {
    assert cs == [cs[0]] + cs[1..];
    if Free(cs[0], '\\') {
      var rest: seq<string>;
      rest, name, after := CutAtBackslash(cs[1..]);
      before := [cs[0]] + rest;
    } else {
      before, name, after := [], cs[0], cs[1..];
    }
  }

  lemma BackslashInComponents(cwd: string, path: string)
    requires !PlainPath(cwd, path)
    ensures !BackslashFree(PosixPath(cwd, path))
  {
    if BackslashFree(PosixPath(cwd, path)) {
      if IsAbs(path) {
        JoinKeepsOthers(path, '\\');
      } else {
        var a, b := PosixComponents(cwd), PosixComponents(path);
        assert forall c :: c in a || c in b ==> c in a + b;
        JoinKeepsOthers(cwd, '\\');
        JoinKeepsOthers(path, '\\');
      }
    }
  }

  /** Where the link that tells code and POSIX apart stands, and what it leads to. */
  function LinkAt(before: seq<string>, name: string): Location {
    Clean([], before) + [name]
  }

  function LinkText(x: string, after: seq<string>): string {
    Render(Chain(x, |after| + 1))
  }

  /** POSIX follows the link: the walk up to it meets none, its target is a chain of
      `x`, and the rest stays below `x`. Other links do not matter while they keep
      clear of these names. */
  lemma PosixFollows(fs: FileSystem, before: seq<string>, name: string, after: seq<string>, x: string) returns (loc: Location)
    requires !Free(name, '\\') && ProperName(x)
    requires LinkAt(before, name) in fs && fs[LinkAt(before, name)] == Target(LinkText(x, after))
    requires NamesNoLink(fs, before) && NamesNoLink(fs, [x]) && NoLinkBelow(fs, x)
    ensures Resolves(PosixComponents, fs, [], before + ([name] + after), 1, loc)
    ensures loc != [] && loc[0] == x
  {
    var dir, chain, text := Clean([], before), Chain(x, |after| + 1), LinkText(x, after);
    ChainPath(x, |after| + 1);
    assert NamesNoLink(fs, chain);
    NoLinkMet(PosixComponents, fs, [], chain);
    CleanOfChain([], x, |after| + 1);
    assert [] + chain == chain;
    StaysBelow(PosixComponents, fs, x, chain, after);
    loc := Clean(chain, after);
    var cs := [name] + after;
    assert cs[0] == name && cs[1..] == after && dir + [cs[0]] == LinkAt(before, name);
    assert name != "." && name != "" && name != ".." by { assert '\\' !in "." && '\\' !in ""  && '\\' !in ".."; }
    assert ThroughLink(PosixComponents, fs, dir, text, after, 1, loc, 0, chain);
    assert Resolves(PosixComponents, fs, dir, cs, 1, loc);
    StepThrough(PosixComponents, fs, [], before, cs, 1, loc);
  }

  lemma LinkAtStarts(before: seq<string>, name: string)
    ensures LinkAt(before, name)[0] == name || LinkAt(before, name)[0] in before
    ensures LastOf(LinkAt(before, name)) == name
  {
    CleanNames([], before);
  }

  /** The code never meets a name with a backslash. */
  lemma CodeWalksPast(cwd: string, path: string, fs: FileSystem)
    requires forall at :: at in fs && at != [] ==> '\\' in LastOf(at)
    ensures ResolvePathSpec(fs, Dir(cwd), path) == Ok(Clean([], Components(cwd, path)))
  {
    var cs := Components(cwd, path);
    SplitPathNames(path);
    SplitPathNames(cwd);
    NoLinkMet(SplitPath, fs, [], cs);
    var links: nat := 0;
    assert Resolves(SplitPath, fs, [], cs, links, Clean([], cs));
    ResolvesWithinHops(fs, cwd, path, Clean([], cs));
  }

  lemma EndsApart(cwd: string, path: string, fs: FileSystem, x: string, loc: Location)
    requires NoBackslash(fs) && forall at :: at in fs && at != [] ==> '\\' in LastOf(at)
    requires Resolves(PosixComponents, fs, [], PosixPath(cwd, path), 1, loc)
    requires loc != [] && loc[0] == x && x !in Components(cwd, path)
    ensures !AgreesWithPosix(cwd, path)
  {
    CodeWalksPast(cwd, path, fs);
    CleanNames([], Components(cwd, path));
    var links: nat := 1;
    assert Resolves(PosixComponents, fs, [], PosixPath(cwd, path), links, loc);
    assert !AgreesAt(fs, cwd, path, loc);
  }

  /** A backslash spoils it: behind a link of that name POSIX ends where the code
      never goes. */
  lemma BackslashSpoils(cwd: string, path: string)
    requires !PlainPath(cwd, path)
    ensures !AgreesWithPosix(cwd, path)
  {
    BackslashInComponents(cwd, path);
    var before, name, after := CutAtBackslash(PosixPath(cwd, path));
    var x := FreshName(PosixPath(cwd, path) + Components(cwd, path));
    var fs: FileSystem := map[LinkAt(before, name) := Target(LinkText(x, after))];
    LinkAtStarts(before, name);
    ChainPath(x, |after| + 1);
    var loc := PosixFollows(fs, before, name, after, x);
    EndsApart(cwd, path, fs, x, loc);
  }

  /** resolvePath agrees with POSIX resolution, on every file system whose links hold
      no backslash, if and only if there is none in the path, nor in the working
      directory where it counts. */
  lemma PosixIffPlain(cwd: string, path: string)
    ensures AgreesWithPosix(cwd, path) <==> PlainPath(cwd, path)
  {
    if PlainPath(cwd, path) {
      forall fs, loc | NoBackslash(fs) ensures AgreesAt(fs, cwd, path, loc) {
        ResolvesAsPosix(fs, cwd, path, loc);
      }
    } else {
      BackslashSpoils(cwd, path);
    }
  }

  // ---------------------------------------------------------- backslashes in link texts

  /** From the root, a link is followed to where its text leads. */
  lemma OneLink(cut: string -> seq<string>, fs: FileSystem, l: string, text: string)
    requires ProperName(l) && [l] in fs && fs[[l]] == Target(text) && NamesNoLink(fs, cut(text))
    ensures Resolves(cut, fs, [], [l], 1, Clean([], cut(text)))
  {
    var one: seq<string> := [l];
    NoLinkMet(cut, fs, [], cut(text));
    assert one[0] == l && one[1..] == [] && [] + [l] == [l];
    assert Origin([], text) == [];
    assert ThroughLink(cut, fs, [], text, [], 1, Clean([], cut(text)), 0, Clean([], cut(text)));
  }

  lemma SplitOfTwo(a: string, b: string)
    requires ProperName(a) && ProperName(b)
    ensures SplitPath(a + "\\" + b) == [a, b]
  {
    var path := a + "\\" + b;
    assert Slashes(path) == a + ['/'] + b;
    SplitPathParts(path);
    SplitAppend(a, '/', b);
    SplitOfFree(a, '/');
    SplitOfFree(b, '/');
    NonEmptyOfNonEmpty([a, b]);
  }

  lemma PlainPathOfName(l: string)
    requires ProperName(l)
    ensures PosixComponents("/" + l) == [l] && SplitPath("/" + l) == [l] && IsAbs("/" + l) && '\\' !in "/" + l
  {
    assert Render([l]) == "/" + l;
    SplitOfRender([l]);
    SplitPathIsPosix("/" + l);
  }

  lemma CleanOfNames(a: string, b: string)
    requires ProperName(a) && ProperName(b)
    ensures Clean([], [a, b]) == [a, b]
  {
    CleanAppend([], [a], [b]);
    CleanOfOne([], a);
    CleanOfOne([a], b);
    assert [a] + [b] == [a, b];
  }

  lemma CodeFollowsText(fs: FileSystem, cwd: string, l: string, text: string)
    requires ProperName(l) && fs == map[[l] := Target(text)] && l !in SplitPath(text)
    ensures ResolvePathSpec(fs, Dir(cwd), "/" + l) == Ok(Clean([], SplitPath(text)))
  {
    PlainPathOfName(l);
    assert LastOf([l]) == l;
    OneLink(SplitPath, fs, l, text);
    var links: nat := 1;
    assert Resolves(SplitPath, fs, [], Components(cwd, "/" + l), links, Clean([], SplitPath(text)));
    ResolvesWithinHops(fs, cwd, "/" + l, Clean([], SplitPath(text)));
  }

  lemma PosixFollowsText(fs: FileSystem, cwd: string, l: string, text: string)
    requires ProperName(l) && fs == map[[l] := Target(text)]
    requires Free(text, '/') && !Free(text, '\\')
    ensures Resolves(PosixComponents, fs, [], PosixPath(cwd, "/" + l), 1, [text])
  {
    PlainPathOfName(l);
    assert '\\' !in "." && '\\' !in ".." && '\\' !in "";
    SplitOfFree(text, '/');
    NonEmptyOfNonEmpty([text]);
    assert LastOf([l]) == l && l != text;
    OneLink(PosixComponents, fs, l, text);
    CleanOfOne([], text);
    assert [] + [text] == [text];
  }

  /** A link whose text holds a backslash leads the code to another place than POSIX,
      though the path itself is plain. */
  lemma BackslashTextGoesAstray(cwd: string, l: string, a: string, b: string)
    requires ProperName(l) && ProperName(a) && ProperName(b) && l != a && l != b
    ensures var text := a + "\\" + b;
            var fs: FileSystem := map[[l] := Target(text)];
            && ResolvePathSpec(fs, Dir(cwd), "/" + l) == Ok([a, b])
            && Resolves(PosixComponents, fs, [], PosixPath(cwd, "/" + l), 1, [text])
  {
    var text := a + "\\" + b;
    var fs: FileSystem := map[[l] := Target(text)];
    assert text[|a|] == '\\';
    PosixFollowsText(fs, cwd, l, text);
    SplitOfTwo(a, b);
    CleanOfNames(a, b);
    CodeFollowsText(fs, cwd, l, text);
  }

  /** The same with two links that can both be read: `l` to the text, and one to a
      chain of `x` at the text's first name with a backslash. */
  function Detour(l: string, text: string, before: seq<string>, name: string, after: seq<string>, x: string): FileSystem {
    map[[l] := Target(text), LinkAt(before, name) := Target(LinkText(x, after))]
  }

  /** Every link can be read, and `text` is the only one with a backslash. */
  ghost predicate OnlyBackslashText(fs: FileSystem, text: string) {
    && (exists at :: at in fs && fs[at] == Target(text))
    && forall at :: at in fs ==> fs[at].Target? && (fs[at].text == text || '\\' !in fs[at].text)
  }

  lemma DetourTexts(l: string, text: string, before: seq<string>, name: string, after: seq<string>, x: string)
    requires l != name && ProperName(x)
    ensures OnlyBackslashText(Detour(l, text, before, name, after, x), text)
  {
    var fs, at := Detour(l, text, before, name, after, x), LinkAt(before, name);
    ChainPath(x, |after| + 1);
    assert LastOf([l]) == l && LastOf(at) == name;
    assert [l] in fs && fs[[l]] == Target(text);
  }

  lemma DetourIsClear(l: string, text: string, before: seq<string>, name: string, after: seq<string>, x: string)
    requires l !in before && name !in before && x !in before && l != x && name != x
    ensures var fs := Detour(l, text, before, name, after, x); NamesNoLink(fs, before) && NamesNoLink(fs, [x]) && NoLinkBelow(fs, x)
  {
    LinkAtStarts(before, name);
    assert LastOf([l]) == l;
  }

  lemma DetourIsFollowed(cwd: string, l: string, text: string, before: seq<string>, name: string, after: seq<string>, x: string)
    returns (loc: Location)
    requires ProperName(l) && ProperName(x) && l != x && l !in PosixComponents(text) && x !in PosixComponents(text)
    requires PosixComponents(text) == before + ([name] + after) && BackslashFree(before) && !Free(name, '\\')
    ensures Resolves(PosixComponents, Detour(l, text, before, name, after, x), [], PosixPath(cwd, "/" + l), 2, loc)
    ensures loc != [] && loc[0] == x
  {
    var fs, one := Detour(l, text, before, name, after, x), [l];
    assert name in before + ([name] + after);
    assert forall c :: c in before ==> c in before + ([name] + after);
    DetourIsClear(l, text, before, name, after, x);
    assert LastOf([l]) == l && LastOf(LinkAt(before, name)) == name && l != name;
    loc := PosixFollows(fs, before, name, after, x);
    PlainPathOfName(l);
    assert one[0] == l && one[1..] == [] && [] + [l] == [l];
    assert Origin([], text) == [];
    assert ThroughLink(PosixComponents, fs, [], text, [], 2, loc, 1, loc);
  }

  lemma DetourIsMissed(cwd: string, l: string, text: string, before: seq<string>, name: string, after: seq<string>, x: string)
    requires ProperName(l) && l !in SplitPath(text) && '\\' in name
    ensures ResolvePathSpec(Detour(l, text, before, name, after, x), Dir(cwd), "/" + l) == Ok(Clean([], SplitPath(text)))
  {
    var fs, loc := Detour(l, text, before, name, after, x), Clean([], SplitPath(text));
    PlainPathOfName(l);
    assert LastOf([l]) == l && LastOf(LinkAt(before, name)) == name;
    SplitPathNames(text);
    OneLink(SplitPath, fs, l, text);
    var links: nat := 1;
    assert Resolves(SplitPath, fs, [], Components(cwd, "/" + l), links, loc);
    ResolvesWithinHops(fs, cwd, "/" + l, loc);
  }

  /** Every text with a backslash leads some plain path astray, on a file system on
      which every link can be read and no other text has one. */
  lemma EveryBackslashTextGoesAstray(cwd: string, text: string) returns (fs: FileSystem, path: string, code: Location, posix: Location)
    requires '\\' in text
    ensures PlainPath(cwd, path) && OnlyBackslashText(fs, text)
    ensures ResolvePathSpec(fs, Dir(cwd), path) == Ok(code) && code != posix
    ensures Resolves(PosixComponents, fs, [], PosixPath(cwd, path), 2, posix)
  {
    if BackslashFree(PosixComponents(text)) {
      JoinKeepsOthers(text, '\\');
    }
    var before, name, after := CutAtBackslash(PosixComponents(text));
    var l := FreshName(PosixComponents(text) + SplitPath(text));
    var x := FreshName(PosixComponents(text) + SplitPath(text) + [l]);
    path, fs, code := "/" + l, Detour(l, text, before, name, after, x), Clean([], SplitPath(text));
    PlainPathOfName(l);
    DetourTexts(l, text, before, name, after, x);
    DetourIsMissed(cwd, l, text, before, name, after, x);
    CleanNames([], SplitPath(text));
    posix := DetourIsFollowed(cwd, l, text, before, name, after, x);
  }

  /** Every link that can be read has one of these texts. */
  ghost predicate TextsIn(fs: FileSystem, texts: iset<string>) {
    forall at :: at in fs && fs[at].Target? ==> fs[at].text in texts
  }

  /** The code agrees with POSIX for every plain path on every file system with such
      link texts. */
  ghost predicate AgreesOnLinks(texts: iset<string>) {
    forall fs, cwd, path, loc | TextsIn(fs, texts) && PlainPath(cwd, path) :: AgreesAt(fs, cwd, path, loc)
  }

  /** Where the walk of `before` arrives at a link that cannot be read, POSIX reaches
      nothing. */
  lemma PosixStops(fs: FileSystem, before: seq<string>, name: string, after: seq<string>, n: nat, loc: Location)
    requires NamesNoLink(fs, before) && name != "" && name != "." && name != ".."
    requires LinkAt(before, name) in fs && fs[LinkAt(before, name)] == Unreadable
    ensures !Resolves(PosixComponents, fs, [], before + ([name] + after), n, loc)
  {
    StepThrough(PosixComponents, fs, [], before, [name] + after, n, loc);
    assert ([name] + after)[0] == name;
  }

  /** A link `l` to the text, and a link that cannot be read at the text's first name
      with a backslash. */
  function Trap(l: string, text: string, at: Location): FileSystem {
    map[[l] := Target(text), at := Unreadable]
  }

  lemma CodePassesTrap(cwd: string, l: string, text: string, at: Location)
    requires ProperName(l) && l !in SplitPath(text) && at != [] && '\\' in LastOf(at)
    ensures ResolvePathSpec(Trap(l, text, at), Dir(cwd), "/" + l) == Ok(Clean([], SplitPath(text)))
  {
    var fs, path, loc := Trap(l, text, at), "/" + l, Clean([], SplitPath(text));
    PlainPathOfName(l);
    assert at != [l] by { assert LastOf([l]) == l; }
    SplitPathNames(text);
    OneLink(SplitPath, fs, l, text);
    var links: nat := 1;
    assert Resolves(SplitPath, fs, [], Components(cwd, path), links, loc);
    ResolvesWithinHops(fs, cwd, path, loc);
  }

  lemma PosixIsTrapped(cwd: string, l: string, text: string, before: seq<string>, name: string, after: seq<string>, n: nat, loc: Location)
    requires ProperName(l) && l !in before && PosixComponents(text) == before + ([name] + after)
    requires BackslashFree(before) && !Free(name, '\\')
    ensures !Resolves(PosixComponents, Trap(l, text, LinkAt(before, name)), [], PosixPath(cwd, "/" + l), n, loc)
  {
    var at := LinkAt(before, name);
    var fs := Trap(l, text, at);
    PlainPathOfName(l);
    LinkAtStarts(before, name);
    assert at != [l] by { assert LastOf([l]) == l; }
    assert name != "." && name != "" && name != ".." by { assert '\\' !in "." && '\\' !in ""  && '\\' !in ".."; }
    assert [l][1..] == [] && [] + [l] == [l];
    assert Origin([], text) == [];
    forall m: nat, mid: Location ensures !ThroughLink(PosixComponents, fs, [], text, [], n, loc, m, mid) {
      PosixStops(fs, before, name, after, m, mid);
    }
  }

  /** Any one text with a backslash spoils it, whatever the texts of other links. */
  lemma BackslashTextSpoils(texts: iset<string>, text: string)
    requires text in texts && '\\' in text
    ensures !AgreesOnLinks(texts)
  {
    if BackslashFree(PosixComponents(text)) {
      JoinKeepsOthers(text, '\\');
    }
    var before, name, after := CutAtBackslash(PosixComponents(text));
    var l := FreshName(PosixComponents(text) + SplitPath(text));
    var cwd, path, at := "/", "/" + l, LinkAt(before, name);
    var fs := Trap(l, text, at);
    LinkAtStarts(before, name);
    PlainPathOfName(l);
    CodePassesTrap(cwd, l, text, at);
    var loc := Clean([], SplitPath(text));
    forall n: nat ensures !Resolves(PosixComponents, fs, [], PosixPath(cwd, path), n, loc) {
      PosixIsTrapped(cwd, l, text, before, name, after, n, loc);
    }
    assert TextsIn(fs, texts) && PlainPath(cwd, path) && !AgreesAt(fs, cwd, path, loc);
  }

  /** For plain paths the code agrees with POSIX on every file system with links to
      given texts if and only if none of these texts holds a backslash. */
  lemma PosixIffPlainLinks(texts: iset<string>)
    ensures AgreesOnLinks(texts) <==> forall text :: text in texts ==> '\\' !in text
  {
    if forall text :: text in texts ==> '\\' !in text {
      forall fs, cwd, path, loc | TextsIn(fs, texts) && PlainPath(cwd, path) ensures AgreesAt(fs, cwd, path, loc) {
        ResolvesAsPosix(fs, cwd, path, loc);
      }
    } else {
      var text :| text in texts && '\\' in text;
      BackslashTextSpoils(texts, text);
    }
  }
}
