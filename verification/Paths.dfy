/** resolvePath: where a create at a path lands, links followed on the way. */
module Paths {
  import opened Sequences

  /** An absolute location, component by component; the root is []. */
  type Location = seq<string>

  /** What Lstat and Readlink say about a symbolic link. */
  datatype Link = Target(text: string) | Unreadable

  /** The symbolic links of a file system by location. Anything else, existing
      or not, is taken as itself. */
  type FileSystem = map<Location, Link>

  const MAX_HOPS: nat := 64

  // ------------------------------------------------------------------- splitting

  function Slashes(path: string): string {
    seq(|path|, i requires 0 <= i < |path| => if path[i] == '\\' then '/' else path[i])
  }

  predicate IsAbs(path: string) {
    path != [] && path[0] == '/'
  }

  function NonEmpty(parts: seq<string>): seq<string> {
    if parts == [] then []
    else (if parts[0] == [] then [] else [parts[0]]) + NonEmpty(parts[1..])
  }

  /** splitPath: backslashes count as separators on every platform. */
  function SplitPath(path: string): seq<string> {
    var normalised := Slashes(path);
    NonEmpty(Split(if IsAbs(normalised) then normalised[1..] else normalised, '/'))
  }

  /** The components of a pathname in POSIX: only '/' separates. */
  function PosixComponents(path: string): seq<string> {
    NonEmpty(Split(path, '/'))
  }

  lemma {:induction false} NonEmptyKeeps(parts: seq<string>)
    ensures forall part :: part in NonEmpty(parts) <==> part in parts && part != []
  {
    if parts != [] {
      NonEmptyKeeps(parts[1..]);
    }
  }

  lemma {:induction false} NonEmptyAppend(a: seq<string>, b: seq<string>)
    ensures NonEmpty(a + b) == NonEmpty(a) + NonEmpty(b)
  {
    if a == [] {
      assert a + b == b;
    } else {
      assert (a + b)[1..] == a[1..] + b;
      NonEmptyAppend(a[1..], b);
    }
  }

  lemma {:induction false} NonEmptyOfNonEmpty(parts: seq<string>)
    requires forall part :: part in parts ==> part != []
    ensures NonEmpty(parts) == parts
  {
    if parts != [] {
      assert parts[0] in parts;
      assert forall part :: part in parts[1..] ==> part in parts;
      NonEmptyOfNonEmpty(parts[1..]);
    }
  }

  /** A leading separator makes no difference to the components. */
  lemma RootIsNoComponent(path: string)
    requires IsAbs(path)
    ensures NonEmpty(Split(path[1..], '/')) == NonEmpty(Split(path, '/'))
  {
    assert path == [] + ['/'] + path[1..];
    SplitAppend([], '/', path[1..]);
    NonEmptyAppend([[]], Split(path[1..], '/'));
  }

  lemma SplitPathParts(path: string)
    ensures SplitPath(path) == PosixComponents(Slashes(path))
  {
    if IsAbs(Slashes(path)) {
      RootIsNoComponent(Slashes(path));
    }
  }

  /** Components are non-empty and hold no separator. */
  lemma ComponentsAreNames(path: string)
    ensures forall c :: c in PosixComponents(path) ==> c != [] && Free(c, '/')
  {
    SplitPiecesFree(path, '/');
    NonEmptyKeeps(Split(path, '/'));
  }

  lemma {:induction false} JoinKeepsOthers(path: string, mark: char)
    requires mark != '/' && forall c :: c in PosixComponents(path) ==> Free(c, mark)
    ensures Free(path, mark)
  {
    var parts := Split(path, '/');
    NonEmptyKeeps(parts);
    forall part | part in parts ensures Free(part, mark) {
      if part != [] { assert part in PosixComponents(path); }
    }
    FreeJoin(parts, '/', mark);
    JoinOfSplit(path, '/');
  }

  /** The code sees a pathname's POSIX components exactly when the pathname has
      no backslash. */
  lemma SplitPathIsPosix(path: string)
    ensures SplitPath(path) == PosixComponents(path) <==> '\\' !in path
  {
    SplitPathParts(path);
    if '\\' !in path {
      assert Slashes(path) == path;
    } else if SplitPath(path) == PosixComponents(path) {
      var slashed := Slashes(path);
      assert Free(slashed, '\\');
      NonEmptyKeeps(Split(slashed, '/'));
      forall c | c in PosixComponents(path) ensures Free(c, '\\') {
        assert c in Split(slashed, '/');
        PieceOf(slashed, '/', c, '\\');
      }
      JoinKeepsOthers(path, '\\');
    }
  }

  lemma {:induction false} PieceOf(s: string, sep: char, part: string, mark: char)
    requires part in Split(s, sep) && Free(s, mark)
    ensures Free(part, mark)
  {
    if s != [] {
      var rest := Split(s[1..], sep);
      assert Free(s[1..], mark);
      if s[0] == sep {
        if part != [] || part in rest { PieceOf(s[1..], sep, part, mark); }
      } else if part == [s[0]] + rest[0] {
        PieceOf(s[1..], sep, rest[0], mark);
      } else {
        PieceOf(s[1..], sep, part, mark);
      }
    }
  }

  // ------------------------------------------------------------------ resolution

  function Parent(loc: Location): Location {
    if loc == [] then [] else loc[..|loc| - 1]
  }

  /** Where the walk of a link's target starts: the root for an absolute target,
      the directory holding the link otherwise. */
  function Origin(base: Location, target: string): Location {
    if IsAbs(target) then [] else base
  }

  /** Pathname resolution (section 4.13 of POSIX.1-2017) as a relation: walking
      `cs` from `base` follows exactly `n` links and lands at `loc`. A link's
      target, cut into components by `cut`, is resolved fully before the
      components after it. With `cut` as PosixComponents this is the standard's
      rule with missing components taken as themselves, and no error for empty
      names, empty targets or components that are no directory. */
  ghost predicate Resolves(cut: string -> seq<string>, fs: FileSystem, base: Location, cs: seq<string>, n: nat, loc: Location)
    decreases n, |cs|
  {
    if cs == [] then n == 0 && loc == base
    else if cs[0] == "." || cs[0] == "" then Resolves(cut, fs, base, cs[1..], n, loc)
    else if cs[0] == ".." then Resolves(cut, fs, Parent(base), cs[1..], n, loc)
    else
      var next := base + [cs[0]];
      if next !in fs then Resolves(cut, fs, next, cs[1..], n, loc)
      else
        && fs[next].Target?
        && exists m: nat, mid: Location :: ThroughLink(cut, fs, base, fs[next].text, cs[1..], n, loc, m, mid)
  }

  /** One link whose target leads to `mid` after `m` links, and `rest` on to
      `loc` after the others. */
  ghost predicate ThroughLink(cut: string -> seq<string>, fs: FileSystem, base: Location, text: string, rest: seq<string>, n: nat, loc: Location,
                              m: nat, mid: Location)
    decreases n, |rest|
  {
    && m < n
    && Resolves(cut, fs, Origin(base, text), cut(text), m, mid)
    && Resolves(cut, fs, mid, rest, n - 1 - m, loc)
  }

  datatype Walked = Located(loc: Location, left: nat) | TooMany | BadLink

  /** The same walk as a computation that may follow `budget` links. */
  function Walk(fs: FileSystem, base: Location, cs: seq<string>, budget: nat): (w: Walked)
    ensures w.Located? ==> w.left <= budget
    decreases budget, |cs|
  {
    if cs == [] then Located(base, budget)
    else if cs[0] == "." || cs[0] == "" then Walk(fs, base, cs[1..], budget)
    else if cs[0] == ".." then Walk(fs, Parent(base), cs[1..], budget)
    else
      var next := base + [cs[0]];
      if next !in fs then Walk(fs, next, cs[1..], budget)
      else if budget == 0 then TooMany
      else if fs[next].Unreadable? then BadLink
      else
        var target := Walk(fs, Origin(base, fs[next].text), SplitPath(fs[next].text), budget - 1);
        if target.Located? then Walk(fs, target.loc, cs[1..], target.left) else target
  }

  /** The walk succeeds exactly when the relation holds for a number of links
      within the budget, and then agrees with it. */
  lemma {:induction false} WalkIsResolution(fs: FileSystem, base: Location, cs: seq<string>, budget: nat, loc: Location, left: nat)
    ensures Walk(fs, base, cs, budget) == Located(loc, left)
       <==> left <= budget && Resolves(SplitPath, fs, base, cs, budget - left, loc)
    decreases budget, |cs|
  {
    if cs != [] {
      var rest := cs[1..];
      var next := base + [cs[0]];
      if cs[0] == "." || cs[0] == "" {
        WalkIsResolution(fs, base, rest, budget, loc, left);
      } else if cs[0] == ".." {
        WalkIsResolution(fs, Parent(base), rest, budget, loc, left);
      } else if next !in fs {
        WalkIsResolution(fs, next, rest, budget, loc, left);
      } else if budget > 0 && fs[next].Target? {
        LinkStepIsResolution(fs, base, cs, budget, loc, left);
      }
    }
  }

  lemma {:induction false} LinkStepIsResolution(fs: FileSystem, base: Location, cs: seq<string>, budget: nat, loc: Location, left: nat)
    requires cs != [] && cs[0] != "." && cs[0] != "" && cs[0] != ".." && budget > 0
    requires base + [cs[0]] in fs && fs[base + [cs[0]]].Target?
    ensures Walk(fs, base, cs, budget) == Located(loc, left)
       <==> left <= budget && Resolves(SplitPath, fs, base, cs, budget - left, loc)
    decreases budget, |cs|, 0
  {
    var next := base + [cs[0]];
    var text := fs[next].text;
    var from, inner, rest := Origin(base, text), SplitPath(text), cs[1..];
    if Walk(fs, base, cs, budget) == Located(loc, left) {
      var target := Walk(fs, from, inner, budget - 1);
      WalkIsResolution(fs, from, inner, budget - 1, target.loc, target.left);
      WalkIsResolution(fs, target.loc, rest, target.left, loc, left);
      var m := budget - 1 - target.left;
      assert ThroughLink(SplitPath, fs, base, text, rest, budget - left, loc, m, target.loc);
    }
    if left <= budget && Resolves(SplitPath, fs, base, cs, budget - left, loc) {
      var n: nat := budget - left;
      assert Resolves(SplitPath, fs, base, cs, n, loc);
      var m: nat, mid: Location :| ThroughLink(SplitPath, fs, base, text, rest, n, loc, m, mid);
      WalkIsResolution(fs, from, inner, budget - 1, mid, budget - 1 - m);
      WalkIsResolution(fs, mid, rest, budget - 1 - m, loc, left);
    }
  }

  /** Resolution is deterministic: one location, one number of links. */
  lemma ResolutionIsUnique(fs: FileSystem, base: Location, cs: seq<string>, n: nat, loc: Location, n': nat, loc': Location)
    requires Resolves(SplitPath, fs, base, cs, n, loc) && Resolves(SplitPath, fs, base, cs, n', loc')
    ensures n == n' && loc == loc'
  {
    var budget := if n < n' then n' else n;
    WalkIsResolution(fs, base, cs, budget, loc, budget - n);
    WalkIsResolution(fs, base, cs, budget, loc', budget - n');
  }

  /** resolve(base, a + b) == resolve(resolve(base, a), b), budget included. */
  lemma {:induction false} WalkAppend(fs: FileSystem, base: Location, a: seq<string>, b: seq<string>, budget: nat)
    ensures var first := Walk(fs, base, a, budget);
            Walk(fs, base, a + b, budget) == if first.Located? then Walk(fs, first.loc, b, first.left) else first
    decreases budget, |a|
  {
    if a == [] {
      assert a + b == b;
    } else {
      assert (a + b)[0] == a[0] && (a + b)[1..] == a[1..] + b;
      var next := base + [a[0]];
      if a[0] == "." || a[0] == "" {
        WalkAppend(fs, base, a[1..], b, budget);
      } else if a[0] == ".." {
        WalkAppend(fs, Parent(base), a[1..], b, budget);
      } else if next !in fs {
        WalkAppend(fs, next, a[1..], b, budget);
      } else if budget > 0 && fs[next].Target? {
        var target := Walk(fs, Origin(base, fs[next].text), SplitPath(fs[next].text), budget - 1);
        if target.Located? {
          WalkAppend(fs, target.loc, a[1..], b, target.left);
        }
      }
    }
  }

  // -------------------------------------------------------------------- the loop

  /** os.Getwd */
  datatype Cwd = Dir(path: string) | NoCwd

  datatype Resolved = Ok(loc: Location) | TooManyLinks | UnreadableLink | NoWorkingDirectory

  function Components(cwd: string, path: string): seq<string> {
    if IsAbs(path) then SplitPath(path) else SplitPath(cwd) + SplitPath(path)
  }

  function FromWalk(w: Walked): Resolved {
    match w
    case Located(loc, _) => Ok(loc)
    case TooMany => TooManyLinks
    case BadLink => UnreadableLink
  }

  function ResolvePathSpec(fs: FileSystem, cwd: Cwd, path: string): Resolved {
    if IsAbs(path) then FromWalk(Walk(fs, [], SplitPath(path), MAX_HOPS))
    else if cwd.NoCwd? then NoWorkingDirectory
    else FromWalk(Walk(fs, [], Components(cwd.path, path), MAX_HOPS))
  }

  /** The splicing loop: a link's components are put in front of what is left. It
      ends on every link graph, cycles included, and computes the walk. */
  method ResolvePath(fs: FileSystem, cwd: Cwd, path: string) returns (r: Resolved)
    ensures r == ResolvePathSpec(fs, cwd, path)
  {
    var remaining := SplitPath(path);
    if !IsAbs(path) {
      if cwd.NoCwd? {
        return NoWorkingDirectory;
      }
      remaining := SplitPath(cwd.path) + remaining;
    }
    ghost var goal := Walk(fs, [], remaining, MAX_HOPS);
    var resolved: Location := [];
    var hops := 0;
    while |remaining| > 0
      invariant 0 <= hops <= MAX_HOPS
      invariant Walk(fs, resolved, remaining, MAX_HOPS - hops) == goal
      decreases MAX_HOPS - hops, |remaining|
    {
      var component := remaining[0];
      remaining := remaining[1..];
      if component == "." || component == "" {
        continue;
      }
      if component == ".." {
        resolved := Parent(resolved);
        continue;
      }
      var next := resolved + [component];
      if next !in fs {
        resolved := next;
        continue;
      }
      hops := hops + 1;
      if hops > MAX_HOPS {
        return TooManyLinks;
      }
      if fs[next].Unreadable? {
        return UnreadableLink;
      }
      var target := fs[next].text;
      WalkAppend(fs, Origin(resolved, target), SplitPath(target), remaining, MAX_HOPS - hops);
      if IsAbs(target) {
        resolved := [];
      }
      remaining := SplitPath(target) + remaining;
    }
    return Ok(resolved);
  }

  /** resolvePath finds a location exactly when pathname resolution reaches it
      following at most 64 links. */
  lemma ResolvesWithinHops(fs: FileSystem, cwd: string, path: string, loc: Location)
    ensures ResolvePathSpec(fs, Dir(cwd), path) == Ok(loc)
       <==> exists n: nat :: n <= 64 && Resolves(SplitPath, fs, [], Components(cwd, path), n, loc)
  {
    var cs := Components(cwd, path);
    var w := Walk(fs, [], cs, MAX_HOPS);
    if ResolvePathSpec(fs, Dir(cwd), path) == Ok(loc) {
      WalkIsResolution(fs, [], cs, MAX_HOPS, loc, w.left);
      assert Resolves(SplitPath, fs, [], cs, MAX_HOPS - w.left, loc);
    }
    if n: nat :| n <= MAX_HOPS && Resolves(SplitPath, fs, [], cs, n, loc) {
      WalkIsResolution(fs, [], cs, MAX_HOPS, loc, MAX_HOPS - n);
    }
  }

  /** No link holds a backslash in its target. */
  ghost predicate NoBackslash(fs: FileSystem) {
    forall at :: at in fs && fs[at].Target? ==> '\\' !in fs[at].text
  }

  lemma {:induction false} CutsAgree(fs: FileSystem, base: Location, cs: seq<string>, n: nat, loc: Location)
    requires NoBackslash(fs)
    ensures Resolves(SplitPath, fs, base, cs, n, loc) <==> Resolves(PosixComponents, fs, base, cs, n, loc)
    decreases n, |cs|
  {
    if cs != [] {
      var next := base + [cs[0]];
      if cs[0] == "." || cs[0] == "" {
        CutsAgree(fs, base, cs[1..], n, loc);
      } else if cs[0] == ".." {
        CutsAgree(fs, Parent(base), cs[1..], n, loc);
      } else if next !in fs {
        CutsAgree(fs, next, cs[1..], n, loc);
      } else if fs[next].Target? {
        var text := fs[next].text;
        SplitPathIsPosix(text);
        forall m: nat, mid: Location
          ensures ThroughLink(SplitPath, fs, base, text, cs[1..], n, loc, m, mid)
             <==> ThroughLink(PosixComponents, fs, base, text, cs[1..], n, loc, m, mid)
        {
          if m < n {
            CutsAgree(fs, Origin(base, text), SplitPath(text), m, mid);
            CutsAgree(fs, mid, cs[1..], n - 1 - m, loc);
          }
        }
      }
    }
  }

  function PosixPath(cwd: string, path: string): seq<string> {
    if IsAbs(path) then PosixComponents(path) else PosixComponents(cwd) + PosixComponents(path)
  }

  /** No backslash in what names the file. */
  predicate PlainPath(cwd: string, path: string) {
    '\\' !in path && (IsAbs(path) || '\\' !in cwd)
  }

  /** Without backslashes the location is the one POSIX resolution reaches within
      64 links, and there is one exactly when there is one. */
  lemma ResolvesAsPosix(fs: FileSystem, cwd: string, path: string, loc: Location)
    requires NoBackslash(fs) && PlainPath(cwd, path)
    ensures ResolvePathSpec(fs, Dir(cwd), path) == Ok(loc)
       <==> exists n: nat :: n <= 64 && Resolves(PosixComponents, fs, [], PosixPath(cwd, path), n, loc)
  {
    SplitPathIsPosix(path);
    SplitPathIsPosix(cwd);
    assert PosixPath(cwd, path) == Components(cwd, path);
    ResolvesWithinHops(fs, cwd, path, loc);
    var cs := Components(cwd, path);
    if n: nat :| n <= MAX_HOPS && Resolves(SplitPath, fs, [], cs, n, loc) {
      CutsAgree(fs, [], cs, n, loc);
      assert Resolves(PosixComponents, fs, [], PosixPath(cwd, path), n, loc);
    }
    if n: nat :| n <= MAX_HOPS && Resolves(PosixComponents, fs, [], PosixPath(cwd, path), n, loc) {
      CutsAgree(fs, [], cs, n, loc);
      assert Resolves(SplitPath, fs, [], cs, n, loc);
    }
  }

  /** A backslash in a file name sends the code below a directory of that name
      instead, where POSIX has a single component. */
  lemma BackslashGoesAstray()
    ensures ResolvePathSpec(map[], Dir("/"), "/a\\b") == Ok(["a", "b"])
    ensures Resolves(PosixComponents, map[], [], PosixComponents("/a\\b"), 0, ["a\\b"])
  {
    var code, posix := "/a/b", "/a\\b";
    assert Slashes(posix) == code;
    assert code[1..] == "a" + ['/'] + "b";
    assert posix == "" + ['/'] + "a\\b";
    SplitAppend("a", '/', "b");
    SplitOfFree("a", '/');
    SplitOfFree("b", '/');
    SplitAppend("", '/', "a\\b");
    SplitOfFree("a\\b", '/');
    assert NonEmpty(["a", "b"]) == ["a"] + NonEmpty(["b"]) && NonEmpty(["b"]) == ["b"] + NonEmpty([]);
    assert NonEmpty(["", "a\\b"]) == NonEmpty(["a\\b"]) && NonEmpty(["a\\b"]) == ["a\\b"] + NonEmpty([]);
    var none: FileSystem := map[];
    assert Walk(none, ["a"], ["b"], MAX_HOPS) == Walk(none, ["a", "b"], [], MAX_HOPS);
    assert Walk(none, [], ["a", "b"], MAX_HOPS) == Walk(none, ["a"], ["b"], MAX_HOPS);
    assert Resolves(PosixComponents, none, ["a\\b"], [], 0, ["a\\b"]);
  }

  /** A smaller budget can only turn a walk into TooMany. */
  lemma {:induction false} SmallerBudget(fs: FileSystem, base: Location, cs: seq<string>, small: nat, budget: nat)
    requires small <= budget
    ensures var w, v := Walk(fs, base, cs, budget), Walk(fs, base, cs, small);
            v == TooMany || (if w.Located? then v.Located? && v.loc == w.loc && budget - w.left == small - v.left else v == w)
    decreases budget, |cs|
  {
    if cs != [] {
      var next := base + [cs[0]];
      if cs[0] == "." || cs[0] == "" {
        SmallerBudget(fs, base, cs[1..], small, budget);
      } else if cs[0] == ".." {
        SmallerBudget(fs, Parent(base), cs[1..], small, budget);
      } else if next !in fs {
        SmallerBudget(fs, next, cs[1..], small, budget);
      } else if small > 0 && fs[next].Target? {
        var from, inner := Origin(base, fs[next].text), SplitPath(fs[next].text);
        SmallerBudget(fs, from, inner, small - 1, budget - 1);
        var w, v := Walk(fs, from, inner, budget - 1), Walk(fs, from, inner, small - 1);
        if v.Located? {
          SmallerBudget(fs, w.loc, cs[1..], v.left, w.left);
        }
      }
    }
  }

  /** A path that takes more than 64 links is refused as too long a chain. */
  lemma LongChainsAreRefused(fs: FileSystem, cwd: string, path: string, n: nat, loc: Location)
    requires n > 64 && Resolves(SplitPath, fs, [], Components(cwd, path), n, loc)
    ensures ResolvePathSpec(fs, Dir(cwd), path) == TooManyLinks
  {
    WalkIsResolution(fs, [], Components(cwd, path), n, loc, 0);
    SmallerBudget(fs, [], Components(cwd, path), MAX_HOPS, n);
  }

  // ------------------------------------------------------------ about the result

  /** No prefix of the location is a link. */
  ghost predicate Settled(fs: FileSystem, loc: Location) {
    forall i :: 0 < i <= |loc| ==> loc[..i] !in fs
  }

  /** Names a location may consist of. */
  predicate ProperName(c: string) {
    c != "" && c != "." && c != ".." && Free(c, '/') && Free(c, '\\')
  }

  predicate ProperLocation(loc: Location) {
    forall c :: c in loc ==> ProperName(c)
  }

  lemma {:induction false} WalkSettles(fs: FileSystem, base: Location, cs: seq<string>, budget: nat)
    requires Settled(fs, base) && ProperLocation(base)
    requires forall c :: c in cs ==> Free(c, '/') && Free(c, '\\')
    ensures var w := Walk(fs, base, cs, budget); w.Located? ==> Settled(fs, w.loc) && ProperLocation(w.loc)
    decreases budget, |cs|
  {
    if cs != [] {
      var next := base + [cs[0]];
      if cs[0] == "." || cs[0] == "" {
        WalkSettles(fs, base, cs[1..], budget);
      } else if cs[0] == ".." {
        assert forall i :: 0 < i <= |Parent(base)| ==> Parent(base)[..i] == base[..i];
        WalkSettles(fs, Parent(base), cs[1..], budget);
      } else if next !in fs {
        forall i | 0 < i <= |next| ensures next[..i] !in fs {
          if i == |next| { assert next[..i] == next; } else { assert next[..i] == base[..i]; }
        }
        WalkSettles(fs, next, cs[1..], budget);
      } else if budget > 0 && fs[next].Target? {
        var text := fs[next].text;
        SplitPathNames(text);
        WalkSettles(fs, Origin(base, text), SplitPath(text), budget - 1);
        var target := Walk(fs, Origin(base, text), SplitPath(text), budget - 1);
        if target.Located? {
          WalkSettles(fs, target.loc, cs[1..], target.left);
        }
      }
    }
  }

  lemma SplitPathNames(path: string)
    ensures forall c :: c in SplitPath(path) ==> c != "" && Free(c, '/') && Free(c, '\\')
  {
    var slashed := Slashes(path);
    SplitPathParts(path);
    ComponentsAreNames(slashed);
    NonEmptyKeeps(Split(slashed, '/'));
    forall c | c in SplitPath(path) ensures Free(c, '\\') {
      PieceOf(slashed, '/', c, '\\');
    }
  }

  /** The string a location is printed as. */
  function Render(loc: Location): string {
    "/" + Join(loc, '/')
  }

  lemma SplitOfRender(loc: Location)
    requires ProperLocation(loc)
    ensures SplitPath(Render(loc)) == loc
  {
    var path := Render(loc);
    FreeJoin(loc, '/', '\\');
    assert Slashes(path) == path;
    assert path[1..] == Join(loc, '/');
    if loc == [] {
      assert Split(path[1..], '/') == [[]];
      assert NonEmpty([[]]) == [] + NonEmpty([[]][1..]);
    } else {
      SplitOfJoin(loc, '/');
      NonEmptyOfNonEmpty(loc);
    }
  }

  lemma {:induction false} SettledStays(fs: FileSystem, loc: Location, i: nat, budget: nat)
    requires Settled(fs, loc) && ProperLocation(loc) && i <= |loc|
    ensures Walk(fs, loc[..i], loc[i..], budget) == Located(loc, budget)
    decreases |loc| - i
  {
    if i == |loc| {
      assert loc[..i] == loc;
    } else {
      assert loc[i] in loc;
      assert loc[..i] + [loc[i]] == loc[..i + 1];
      assert loc[i..][1..] == loc[i + 1..];
      SettledStays(fs, loc, i + 1, budget);
    }
  }

  /** The result is settled: no prefix of it is a link, and resolving it again
      returns it. */
  lemma ResultIsFinal(fs: FileSystem, cwd: Cwd, path: string)
    ensures var r := ResolvePathSpec(fs, cwd, path);
            r.Ok? ==> Settled(fs, r.loc) && ProperLocation(r.loc) && ResolvePathSpec(fs, cwd, Render(r.loc)) == r
  {
    var r := ResolvePathSpec(fs, cwd, path);
    SplitPathNames(path);
    if cwd.Dir? { SplitPathNames(cwd.path); }
    if r.Ok? {
      var cs := if IsAbs(path) then SplitPath(path) else Components(cwd.path, path);
      WalkSettles(fs, [], cs, MAX_HOPS);
      SplitOfRender(r.loc);
      SettledStays(fs, r.loc, 0, MAX_HOPS);
      assert r.loc[..0] == [] && r.loc[0..] == r.loc;
    }
  }

  /** Distinct locations are distinct strings, so the code's comparison of
      resolved paths is a comparison of locations. */
  lemma RenderIsInjective(a: Location, b: Location)
    requires ProperLocation(a) && ProperLocation(b)
    ensures Render(a) == Render(b) <==> a == b
  {
    SplitOfRender(a);
    SplitOfRender(b);
  }

  /** filepath.Clean on components below `base`. */
  function Clean(base: Location, cs: seq<string>): Location
    decreases |cs|
  {
    if cs == [] then base
    else if cs[0] == "." || cs[0] == "" then Clean(base, cs[1..])
    else if cs[0] == ".." then Clean(Parent(base), cs[1..])
    else Clean(base + [cs[0]], cs[1..])
  }

  /** A walk that follows no link ends where lexical cleaning does. */
  lemma {:induction false} CleaningWithoutLinks(cut: string -> seq<string>, fs: FileSystem, base: Location, cs: seq<string>, loc: Location)
    requires Resolves(cut, fs, base, cs, 0, loc)
    ensures loc == Clean(base, cs)
    decreases |cs|
  {
    if cs != [] {
      var next := base + [cs[0]];
      if cs[0] == "." || cs[0] == "" { CleaningWithoutLinks(cut, fs, base, cs[1..], loc); }
      else if cs[0] == ".." { CleaningWithoutLinks(cut, fs, Parent(base), cs[1..], loc); }
      else { CleaningWithoutLinks(cut, fs, next, cs[1..], loc); }
    }
  }

  /** ".." after a link leaves the directory the link led to, where cleaning
      drops the link and stays in the directory holding it. */
  lemma ParentOfLinkTarget(fs: FileSystem, base: Location, name: string, budget: nat)
    requires ProperName(name) && budget > 0
    requires base + [name] in fs && fs[base + [name]].Target?
    ensures var text := fs[base + [name]].text;
            var target := Walk(fs, Origin(base, text), SplitPath(text), budget - 1);
            target.Located? ==>
              && Walk(fs, base, [name, ".."], budget) == Located(Parent(target.loc), target.left)
              && Clean(base, [name, ".."]) == base
  {
    var text := fs[base + [name]].text;
    var target := Walk(fs, Origin(base, text), SplitPath(text), budget - 1);
    assert [name, ".."][1..] == [".."] && [".."][1..] == [];
    if target.Located? {
      assert Walk(fs, target.loc, [".."], target.left) == Walk(fs, Parent(target.loc), [], target.left);
      assert Clean(base + [name], [".."]) == Clean(Parent(base + [name]), []);
    }
  }
}
