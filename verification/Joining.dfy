/** When cleaning and joining paths lets them lead where they led, on every file
    system: when no ".." cancels a name, as the name may be a link. */
module Joining {
  import opened Sequences
  import opened Paths
  import opened Lexical
  import opened Separators

  /** A component that a walk looks up. */
  predicate IsName(c: string) {
    c != "" && c != "." && c != ".."
  }

  /** No ".." comes after a name. */
  predicate NoCancel(cs: seq<string>) {
    forall i, j :: 0 <= i < j < |cs| && IsName(cs[i]) ==> cs[j] != ".."
  }

  lemma NoCancelRest(cs: seq<string>)
    requires NoCancel(cs) && cs != []
    ensures NoCancel(cs[1..]) && (IsName(cs[0]) ==> ".." !in cs[1..])
  {
    forall i, j | 0 <= i < j < |cs[1..]| && IsName(cs[1..][i]) ensures cs[1..][j] != ".." {
      assert cs[1..][i] == cs[i + 1] && cs[1..][j] == cs[j + 1];
    }
  }

  // --------------------------------------------------------- nothing cancelled, nothing lost

  /** The components with "." dropped, and ".." as well from a rooted path. */
  function Thin(rooted: bool, cs: seq<string>): seq<string> {
    if cs == [] then []
    else (if cs[0] == "." || cs[0] == "" || (rooted && cs[0] == "..") then [] else [cs[0]]) + Thin(rooted, cs[1..])
  }

  /** When nothing cancels, that is all that reduction does. */
  lemma {:induction false} ReducedIsThin(rooted: bool, done: seq<string>, cs: seq<string>)
    requires NoCancel(done + cs) && (rooted ==> ".." !in done)
    requires forall c :: c in done ==> c != "" && c != "."
    ensures Reduced(rooted, done, cs) == done + Thin(rooted, cs)
    decreases |cs|
  {
    if cs == [] {
      assert done + Thin(rooted, cs) == done;
    } else {
      var c, rest := cs[0], cs[1..];
      assert (done + [c]) + rest == done + cs;
      if c == "." || c == "" || (rooted && c == "..") {
        NoCancelWithout(done, c, rest);
        LastIsNoName(done, cs);
        ReducedIsThin(rooted, done, rest);
      } else {
        LastIsNoName(done, cs);
        ReducedIsThin(rooted, done + [c], rest);
        assert (done + [c]) + Thin(rooted, rest) == done + Thin(rooted, cs);
      }
    }
  }

  lemma LastIsNoName(done: seq<string>, cs: seq<string>)
    requires NoCancel(done + cs) && cs != []
    requires forall c :: c in done ==> c != "" && c != "."
    ensures cs[0] == ".." && done != [] ==> done[|done| - 1] == ".."
  {
    var all := done + cs;
    assert all[|done|] == cs[0];
    if done != [] { assert all[|done| - 1] == done[|done| - 1] && done[|done| - 1] in done; }
  }

  lemma NoCancelWithout(done: seq<string>, c: string, rest: seq<string>)
    requires NoCancel((done + [c]) + rest)
    ensures NoCancel(done + rest)
  {
    var all, fewer := (done + [c]) + rest, done + rest;
    forall i, j | 0 <= i < j < |fewer| && IsName(fewer[i]) ensures fewer[j] != ".." {
      var i', j' := if i < |done| then i else i + 1, if j < |done| then j else j + 1;
      assert all[i'] == fewer[i] && all[j'] == fewer[j];
    }
  }

  /** A walk does not miss what is dropped. */
  lemma {:induction false} ThinKeeps(fs: FileSystem, rooted: bool, base: Location, cs: seq<string>, n: nat, loc: Location)
    requires NoCancel(cs) && (rooted ==> base == [] || ".." !in cs)
    ensures Resolves(PosixComponents, fs, base, cs, n, loc) <==> Resolves(PosixComponents, fs, base, Thin(rooted, cs), n, loc)
    decreases n, |cs|
  {
    if cs != [] {
      var c, rest, next := cs[0], cs[1..], base + [cs[0]];
      NoCancelRest(cs);
      assert forall d :: d in rest ==> d in cs;
      if c == "." || c == "" {
        assert Thin(rooted, cs) == Thin(rooted, rest);
        ThinKeeps(fs, rooted, base, rest, n, loc);
      } else if c == ".." {
        assert rooted ==> Thin(rooted, cs) == Thin(rooted, rest);
        ThinKeeps(fs, rooted, Parent(base), rest, n, loc);
        assert !rooted ==> Thin(rooted, cs)[1..] == Thin(rooted, rest);
      } else {
        assert Thin(rooted, cs)[1..] == Thin(rooted, rest);
        if next !in fs {
          ThinKeeps(fs, rooted, next, rest, n, loc);
        } else if fs[next].Target? {
          var text := fs[next].text;
          forall m: nat, mid: Location
            ensures ThroughLink(PosixComponents, fs, base, text, rest, n, loc, m, mid)
               <==> ThroughLink(PosixComponents, fs, base, text, Thin(rooted, rest), n, loc, m, mid)
          {
            if m < n { ThinKeeps(fs, rooted, mid, rest, n - 1 - m, loc); }
          }
        }
      }
    }
  }

  // --------------------------------------------------------------- what a cancelled name shows

  lemma CancelAtEnd(front: seq<string>, last: string) returns (i: nat)
    requires NoCancel(front) && !NoCancel(front + [last])
    ensures last == ".." && i < |front| && IsName(front[i])
  {
    var cs := front + [last];
    var k, j :| 0 <= k < j < |cs| && IsName(cs[k]) && cs[j] == "..";
    assert forall m :: 0 <= m < |front| ==> cs[m] == front[m];
    i := k;
  }

  /** A path around a cancelled name: what comes before it, the components without
      effect between it and the "..", and what comes after. */
  function Around(before: seq<string>, name: string, dots: seq<string>, after: seq<string>): seq<string> {
    before + ([name] + (dots + ([".."] + after)))
  }

  /** The first ".." after a name, and the last name before it. */
  lemma {:induction false} CutAtCancel(cs: seq<string>)
    returns (before: seq<string>, name: string, dots: seq<string>, after: seq<string>)
    requires !NoCancel(cs)
    ensures cs == Around(before, name, dots, after)
    ensures NoCancel(before) && IsName(name) && Thin(false, dots) == []
    decreases |cs|
  {
    var front, last := cs[..|cs| - 1], cs[|cs| - 1];
    assert cs == front + [last];
    if NoCancel(front) {
      var i := CancelAtEnd(front, last);
      before, name, dots := CutAtLastName(front, i);
      after := [];
      assert before + ([name] + dots) + [".."] == Around(before, name, dots, []);
    } else {
      var rest: seq<string>;
      before, name, dots, rest := CutAtCancel(front);
      after := rest + [last];
      assert Around(before, name, dots, rest) + [last] == Around(before, name, dots, after);
    }
  }

  lemma {:induction false} CutAtLastName(cs: seq<string>, i: nat) returns (before: seq<string>, name: string, dots: seq<string>)
    requires NoCancel(cs) && i < |cs| && IsName(cs[i])
    ensures cs == before + ([name] + dots) && NoCancel(before) && IsName(name) && Thin(false, dots) == []
    decreases |cs|
  {
    var front, last := cs[..|cs| - 1], cs[|cs| - 1];
    assert cs == front + [last] && NoCancel(front);
    if IsName(last) {
      before, name, dots := front, last, [];
    } else {
      assert last != "..";
      var fewer: seq<string>;
      before, name, fewer := CutAtLastName(front, i);
      dots := fewer + [last];
      ThinAppend(false, fewer, [last]);
      assert before + ([name] + fewer) + [last] == before + ([name] + dots);
    }
  }

  lemma {:induction false} ThinAppend(rooted: bool, a: seq<string>, b: seq<string>)
    ensures Thin(rooted, a + b) == Thin(rooted, a) + Thin(rooted, b)
  {
    if a == [] {
      assert a + b == b;
    } else {
      assert (a + b)[0] == a[0] && (a + b)[1..] == a[1..] + b;
      ThinAppend(rooted, a[1..], b);
    }
  }

  /** Without ".." a walk that meets no link only goes down. */
  lemma {:induction false} OnlyGrows(base: Location, cs: seq<string>)
    requires ".." !in cs
    ensures base <= Clean(base, cs)
    decreases |cs|
  {
    if cs != [] {
      assert forall c :: c in cs[1..] ==> c in cs;
      OnlyGrows(if cs[0] == "." || cs[0] == "" then base else base + [cs[0]], cs[1..]);
    }
  }

  /** `at` is the only link. */
  ghost predicate OnlyLink(fs: FileSystem, at: Location) {
    forall other :: other in fs ==> other == at
  }

  /** A walk that cancels no name meets no link deeper than where it arrives. */
  lemma {:induction false} WalksBeside(fs: FileSystem, at: Location, base: Location, cs: seq<string>, rest: seq<string>, n: nat, loc: Location)
    requires NoCancel(cs) && OnlyLink(fs, at) && |at| > |Clean(base, cs)|
    ensures Resolves(PosixComponents, fs, base, cs + rest, n, loc) <==> Resolves(PosixComponents, fs, Clean(base, cs), rest, n, loc)
    decreases |cs|
  {
    if cs == [] {
      assert cs + rest == rest;
    } else {
      assert (cs + rest)[0] == cs[0] && (cs + rest)[1..] == cs[1..] + rest;
      NoCancelRest(cs);
      var next := base + [cs[0]];
      if cs[0] == "." || cs[0] == "" { WalksBeside(fs, at, base, cs[1..], rest, n, loc); }
      else if cs[0] == ".." { WalksBeside(fs, at, Parent(base), cs[1..], rest, n, loc); }
      else {
        OnlyGrows(next, cs[1..]);
        WalksBeside(fs, at, next, cs[1..], rest, n, loc);
      }
    }
  }

  lemma {:induction false} SkipsDots(fs: FileSystem, base: Location, dots: seq<string>, rest: seq<string>, n: nat, loc: Location)
    requires Thin(false, dots) == []
    ensures Resolves(PosixComponents, fs, base, dots + rest, n, loc) <==> Resolves(PosixComponents, fs, base, rest, n, loc)
    decreases |dots|
  {
    if dots == [] {
      assert dots + rest == rest;
    } else {
      assert (dots + rest)[0] == dots[0] && (dots + rest)[1..] == dots[1..] + rest;
      SkipsDots(fs, base, dots[1..], rest, n, loc);
    }
  }

  /** Not below a chain of `k` times `x`. */
  predicate OutOfChain(loc: Location, x: string, k: nat) {
    |loc| < k || (k > 0 && loc[k - 1] != x)
  }

  lemma {:induction false} StaysOutOfChain(base: Location, cs: seq<string>, x: string, k: nat)
    requires OutOfChain(base, x, k) && x !in cs && k > 0
    ensures OutOfChain(Clean(base, cs), x, k)
    decreases |cs|
  {
    if cs != [] {
      assert cs[0] in cs && forall c :: c in cs[1..] ==> c in cs;
      StaysOutOfChain(if cs[0] == "." || cs[0] == "" then base else if cs[0] == ".." then Parent(base) else base + [cs[0]],
                      cs[1..], x, k);
    }
  }

  /** A link at the cancelled name, to a chain of a name used nowhere else. */
  ghost predicate Tells(fs: FileSystem, at: Location, x: string, k: nat) {
    && at != [] && x !in at && ProperName(x) && k > 0
    && OnlyLink(fs, at) && at in fs && fs[at] == Target(Render(Chain(x, k)))
  }

  /** The path itself follows the link and then goes up, out of the chain. */
  lemma LeavesTheChain(fs: FileSystem, base: Location, before: seq<string>, name: string, dots: seq<string>, after: seq<string>,
                       x: string, k: nat)
    returns (loc: Location)
    requires NoCancel(before) && IsName(name) && Thin(false, dots) == [] && x !in after && k > |after| + 1
    requires Tells(fs, Clean(base, before) + [name], x, k)
    ensures Resolves(PosixComponents, fs, base, Around(before, name, dots, after), 1, loc)
    ensures OutOfChain(loc, x, k) && loc != [] && loc[0] == x
  {
    var dir, chain, text, up := Clean(base, before), Chain(x, k), Render(Chain(x, k)), Chain(x, k - 1);
    var tail := dots + ([".."] + after);
    var cs := [name] + tail;
    loc := Clean(up, after);
    ChainPath(x, k);
    assert LastOf(dir + [name]) == name && name in dir + [name];
    NoLinkMet(PosixComponents, fs, [], chain);
    CleanOfChain([], x, k);
    assert [] + chain == chain && Parent(chain) == up;
    assert (dir + [name])[0] in dir + [name];
    StaysBelow(PosixComponents, fs, x, up, after);
    StaysOutOfChain(up, after, x, k);
    assert ([".."] + after)[1..] == after;
    assert Resolves(PosixComponents, fs, chain, [".."] + after, 0, loc);
    SkipsDots(fs, chain, dots, [".."] + after, 0, loc);
    assert cs[0] == name && cs[1..] == tail;
    assert ThroughLink(PosixComponents, fs, dir, text, tail, 1, loc, 0, chain);
    assert Resolves(PosixComponents, fs, dir, cs, 1, loc);
    WalksBeside(fs, dir + [name], base, before, cs, 1, loc);
  }

  /** A path that cancels no name and follows the link ends in the chain. */
  lemma {:induction false} EndsInTheChain(fs: FileSystem, at: Location, base: Location, cs: seq<string>, x: string, k: nat, loc: Location)
    requires Tells(fs, at, x, k) && NoCancel(cs)
    requires Resolves(PosixComponents, fs, base, cs, 1, loc)
    ensures !OutOfChain(loc, x, k)
    decreases |cs|
  {
    NoCancelRest(cs);
    var next := base + [cs[0]];
    if cs[0] == "." || cs[0] == "" {
      EndsInTheChain(fs, at, base, cs[1..], x, k, loc);
    } else if cs[0] == ".." {
      EndsInTheChain(fs, at, Parent(base), cs[1..], x, k, loc);
    } else if next !in fs {
      EndsInTheChain(fs, at, next, cs[1..], x, k, loc);
    } else {
      var chain, text := Chain(x, k), Render(Chain(x, k));
      var m: nat, mid: Location :| ThroughLink(PosixComponents, fs, base, text, cs[1..], 1, loc, m, mid);
      ChainPath(x, k);
      CleaningWithoutLinks(PosixComponents, fs, [], chain, mid);
      CleanOfChain([], x, k);
      assert [] + chain == chain;
      CleaningWithoutLinks(PosixComponents, fs, mid, cs[1..], loc);
      OnlyGrows(chain, cs[1..]);
      assert loc[k - 1] == chain[k - 1];
    }
  }

  /** Such a link exists for every path that cancels a name. */
  lemma CancelledNameIsTold(base: Location, cs: seq<string>, others: seq<string>)
    returns (fs: FileSystem, at: Location, x: string, k: nat, loc: Location)
    requires !NoCancel(cs)
    ensures Tells(fs, at, x, k) && x !in others
    ensures Resolves(PosixComponents, fs, base, cs, 1, loc)
    ensures OutOfChain(loc, x, k) && loc != [] && loc[0] == x
  {
    var before, name, dots, after := CutAtCancel(cs);
    x := FreshName(base + before + [name] + after + others);
    k := |after| + 2;
    at := Clean(base, before) + [name];
    CleanNames(base, before);
    fs := map[at := Target(Render(Chain(x, k)))];
    loc := LeavesTheChain(fs, base, before, name, dots, after, x, k);
  }

  // -------------------------------------------------------------------------- the result

  /** What is reduced cancels nothing more. */
  lemma {:induction false} ReducedCancelsNothing(rooted: bool, done: seq<string>, cs: seq<string>)
    requires NoCancel(done)
    ensures NoCancel(Reduced(rooted, done, cs))
    decreases |cs|
  {
    if cs != [] {
      if cs[0] == "." || cs[0] == "" {
        ReducedCancelsNothing(rooted, done, cs[1..]);
      } else if cs[0] != ".." {
        assert NoCancel(done + [cs[0]]);
        ReducedCancelsNothing(rooted, done + [cs[0]], cs[1..]);
      } else if done != [] && done[|done| - 1] != ".." {
        ReducedCancelsNothing(rooted, done[..|done| - 1], cs[1..]);
      } else if rooted {
        ReducedCancelsNothing(rooted, done, cs[1..]);
      } else {
        assert NoCancel(done + [".."]);
        ReducedCancelsNothing(rooted, done + [".."], cs[1..]);
      }
    }
  }

  /** Two lists of components lead to the same place over the same number of links,
      on every file system. */
  ghost predicate SameEverywhere(base: Location, cs: seq<string>, ds: seq<string>) {
    forall fs, n: nat, loc ::
      Resolves(PosixComponents, fs, base, cs, n, loc) <==> Resolves(PosixComponents, fs, base, ds, n, loc)
  }

  /** The components of a cleaned path cancel nothing. */
  lemma CleanedCancelsNothing(path: string)
    ensures NoCancel(PosixComponents(CleanPath(path)))
  {
    CleanedComponents(path);
    ReducedCancelsNothing(IsAbs(path), [], PosixComponents(path));
  }

  lemma CleanedIsReduced(fs: FileSystem, base: Location, path: string, n: nat, loc: Location)
    ensures Resolves(PosixComponents, fs, base, PosixComponents(CleanPath(path)), n, loc)
       <==> Resolves(PosixComponents, fs, base, Reduced(IsAbs(path), [], PosixComponents(path)), n, loc)
  {
    CleanedComponents(path);
    var dot: seq<string> := ["."];
    assert dot[0] == "." && dot[1..] == [];
  }

  lemma CleanKeeps(fs: FileSystem, cwd: Location, path: string, n: nat, loc: Location)
    requires NoCancel(PosixComponents(path))
    ensures Resolves(PosixComponents, fs, Start(cwd, path), PosixComponents(path), n, loc)
       <==> Resolves(PosixComponents, fs, Start(cwd, path), PosixComponents(CleanPath(path)), n, loc)
  {
    var cs, rooted := PosixComponents(path), IsAbs(path);
    assert [] + cs == cs && [] + Thin(rooted, cs) == Thin(rooted, cs);
    ReducedIsThin(rooted, [], cs);
    CleanedIsReduced(fs, Start(cwd, path), path, n, loc);
    ThinKeeps(fs, rooted, Start(cwd, path), cs, n, loc);
  }

  /** A path that cancels a name leads elsewhere than one that does not, on the file
      system with a link there. */
  lemma CancelSpoils(base: Location, cs: seq<string>, ds: seq<string>)
    requires !NoCancel(cs) && NoCancel(ds)
    ensures !SameEverywhere(base, cs, ds)
  {
    var fs, at, x, k, loc := CancelledNameIsTold(base, cs, []);
    var links: nat := 1;
    assert Resolves(PosixComponents, fs, base, cs, links, loc);
    if Resolves(PosixComponents, fs, base, ds, links, loc) {
      EndsInTheChain(fs, at, base, ds, x, k, loc);
    }
  }

  /** filepath.Clean leaves a path leading where it did on every file system if and
      only if no ".." in it comes after a name. */
  lemma CleanIffNoCancel(cwd: Location, path: string)
    ensures SameEverywhere(Start(cwd, path), PosixComponents(path), PosixComponents(CleanPath(path)))
       <==> NoCancel(PosixComponents(path))
  {
    var base, cs, ds := Start(cwd, path), PosixComponents(path), PosixComponents(CleanPath(path));
    if NoCancel(cs) {
      forall fs, n: nat, loc
        ensures Resolves(PosixComponents, fs, base, cs, n, loc) <==> Resolves(PosixComponents, fs, base, ds, n, loc)
      {
        CleanKeeps(fs, cwd, path, n, loc);
      }
    } else {
      CleanedCancelsNothing(path);
      CancelSpoils(base, cs, ds);
    }
  }

  /** filepath.Join of a directory and a file leads to that file of that directory on
      every file system if and only if no ".." comes after a name. */
  lemma JoinIffNoCancel(cwd: Location, dir: string, file: string)
    requires file != "" && Free(file, '/')
    ensures Start(cwd, JoinPath(dir, file)) == Start(cwd, dir)
    ensures SameEverywhere(Start(cwd, dir), PosixComponents(dir) + [file], PosixComponents(JoinPath(dir, file)))
       <==> NoCancel(PosixComponents(dir) + [file])
  {
    var path := JoinedPath(dir, file);
    CleanedComponents(path);
    CleanIffNoCancel(cwd, path);
  }

  /** A name that is no link stays where the walk before it arrives. */
  lemma {:induction false} OneMoreName(fs: FileSystem, base: Location, cs: seq<string>, file: string, n: nat, dir: Location)
    requires Resolves(PosixComponents, fs, base, cs, n, dir)
    requires IsName(file) && dir + [file] !in fs
    ensures Resolves(PosixComponents, fs, base, cs + [file], n, dir + [file])
    decreases n, |cs|
  {
    if cs == [] {
      assert cs + [file] == [file] && [file][1..] == [];
    } else {
      var rest, next := cs[1..], base + [cs[0]];
      assert (cs + [file])[0] == cs[0] && (cs + [file])[1..] == rest + [file];
      if cs[0] == "." || cs[0] == "" { OneMoreName(fs, base, rest, file, n, dir); }
      else if cs[0] == ".." { OneMoreName(fs, Parent(base), rest, file, n, dir); }
      else if next !in fs { OneMoreName(fs, next, rest, file, n, dir); }
      else {
        var text := fs[next].text;
        var m: nat, mid: Location :| ThroughLink(PosixComponents, fs, base, text, rest, n, dir, m, mid);
        OneMoreName(fs, mid, rest, file, n - 1 - m, dir);
        assert ThroughLink(PosixComponents, fs, base, text, rest + [file], n, dir + [file], m, mid);
      }
    }
  }

  /** `path` lands on `file` in the directory, wherever `dir` leads, unless the file
      itself is a link. */
  ghost predicate LandsInDirectory(cwd: Location, dir: string, file: string, path: string) {
    forall fs, n: nat, at |
      Resolves(PosixComponents, fs, Start(cwd, dir), PosixComponents(dir), n, at) && at + [file] !in fs ::
      Resolves(PosixComponents, fs, Start(cwd, path), PosixComponents(path), n, at + [file])
  }

  lemma NoCancelName(cs: seq<string>, file: string)
    requires file != ".."
    ensures NoCancel(cs + [file]) <==> NoCancel(cs)
  {
    var all := cs + [file];
    if NoCancel(all) {
      forall i, j | 0 <= i < j < |cs| && IsName(cs[i]) ensures cs[j] != ".." {
        assert all[i] == cs[i] && all[j] == cs[j];
      }
    }
  }

  lemma LandsIfNoCancel(cwd: Location, dir: string, file: string)
    requires IsName(file) && Free(file, '/') && NoCancel(PosixComponents(dir))
    ensures LandsInDirectory(cwd, dir, file, JoinPath(dir, file))
  {
    NoCancelName(PosixComponents(dir), file);
    JoinIffNoCancel(cwd, dir, file);
    forall fs, n: nat, at |
      Resolves(PosixComponents, fs, Start(cwd, dir), PosixComponents(dir), n, at) && at + [file] !in fs
      ensures Resolves(PosixComponents, fs, Start(cwd, dir), PosixComponents(JoinPath(dir, file)), n, at + [file])
    {
      OneMoreName(fs, Start(cwd, dir), PosixComponents(dir), file, n, at);
    }
  }

  lemma FileStaysOut(fs: FileSystem, at: Location, x: string, k: nat, loc: Location, file: string)
    requires Tells(fs, at, x, k) && OutOfChain(loc, x, k) && loc != [] && loc[0] == x && file != x
    ensures loc + [file] !in fs && OutOfChain(loc + [file], x, k)
  {
    assert (loc + [file])[0] == x;
  }

  lemma StraysIfCancelled(cwd: Location, dir: string, file: string)
    requires file != "" && Free(file, '/') && !NoCancel(PosixComponents(dir))
    ensures !LandsInDirectory(cwd, dir, file, JoinPath(dir, file))
  {
    var path := JoinedPath(dir, file);
    CleanedCancelsNothing(path);
    CleanedComponents(path);
    var base, ds := Start(cwd, dir), PosixComponents(JoinPath(dir, file));
    var fs, at, x, k, loc := CancelledNameIsTold(base, PosixComponents(dir), [file]);
    var links: nat := 1;
    assert Resolves(PosixComponents, fs, base, PosixComponents(dir), links, loc);
    FileStaysOut(fs, at, x, k, loc, file);
    if Resolves(PosixComponents, fs, base, ds, links, loc + [file]) {
      EndsInTheChain(fs, at, base, ds, x, k, loc + [file]);
    }
  }

  /** ".." as the file lands in the directory above. */
  lemma DotsStray(cwd: Location, dir: string)
    ensures !LandsInDirectory(cwd, dir, "..", JoinPath(dir, ".."))
  {
    var base, cs, ds := Start(cwd, dir), PosixComponents(dir), PosixComponents(JoinPath(dir, ".."));
    var none: FileSystem, at, links: nat := map[], Clean(base, cs), 0;
    NoLinkMet(PosixComponents, none, base, cs);
    assert Resolves(PosixComponents, none, base, cs, links, at) && at + [".."] !in none;
    JoinIffNoCancel(cwd, dir, "..");
    JoinLeadsThere(cwd, dir, "..");
    CleanOfOne(at, "..");
    if Resolves(PosixComponents, none, base, ds, links, at + [".."]) {
      CleaningWithoutLinks(PosixComponents, none, base, ds, at + [".."]);
    }
  }

  /** The joined path lands in the directory on every file system if and only if the
      file is not ".." and no ".." of the directory comes after a name. */
  lemma LandsIffNoCancel(cwd: Location, dir: string, file: string)
    requires file != "" && file != "." && Free(file, '/')
    ensures LandsInDirectory(cwd, dir, file, JoinPath(dir, file)) <==> file != ".." && NoCancel(PosixComponents(dir))
  {
    if file == ".." {
      DotsStray(cwd, dir);
    } else if NoCancel(PosixComponents(dir)) {
      LandsIfNoCancel(cwd, dir, file);
    } else {
      StraysIfCancelled(cwd, dir, file);
    }
  }

  /** A link, then "..": the walk goes to the directory above the link's target, not
      to the one that holds the link. */
  lemma DotsAfterLink(fs: FileSystem, base: Location, link: string, far: string, down: string)
    requires ProperName(link) && ProperName(far) && ProperName(down) && link != far && link != down
    requires fs == map[base + [link] := Target(far + "/" + down)]
    ensures Resolves(PosixComponents, fs, base, [link, ".."], 1, base + [far])
  {
    var cs: seq<string>, text := [link, ".."], far + ['/'] + down;
    TwoComponents(far, down);
    assert text == far + "/" + down;
    assert text[0] == far[0] && far[0] in far && Origin(base, text) == base;
    assert LastOf(base + [link]) == link;
    NoLinkMet(PosixComponents, fs, base, [far, down]);
    CleanOfTwo(base, far, down);
    assert cs[0] == link && cs[1..] == [".."] && [".."][1..] == [];
    assert Parent(base + [far, down]) == base + [far];
    assert Resolves(PosixComponents, fs, base + [far, down], [".."], 0, base + [far]);
    assert ThroughLink(PosixComponents, fs, base, text, [".."], 1, base + [far], 0, base + [far, down]);
  }

  lemma TwoComponents(a: string, b: string)
    requires ProperName(a) && ProperName(b)
    ensures PosixComponents(a + ['/'] + b) == [a, b]
  {
    SplitAppend(a, '/', b);
    SplitOfFree(a, '/');
    SplitOfFree(b, '/');
    NonEmptyOfNonEmpty([a, b]);
  }

  lemma TwoThenSlash(a: string, b: string)
    requires a != "" && b != "" && Free(a, '/') && Free(b, '/')
    ensures PosixComponents(a + ['/'] + (b + ['/'])) == [a, b]
  {
    assert b + ['/'] == b + ['/'] + [];
    SplitAppend(a, '/', b + ['/']);
    SplitAppend(b, '/', []);
    SplitOfFree(a, '/');
    SplitOfFree(b, '/');
    SplitOfFree([], '/');
    NonEmptyOfNonEmpty([a, b]);
    NonEmptyAppend([a, b], [[]]);
    assert NonEmpty([[]]) == NonEmpty([[]][1..]);
    assert [a] + ([b] + [[]]) == [a, b] + [[]];
  }

  lemma CleanOfTwo(base: Location, a: string, b: string)
    requires IsName(a) && IsName(b)
    ensures Clean(base, [a, b]) == base + [a, b]
  {
    CleanAppend(base, [a], [b]);
    CleanOfOne(base, a);
    CleanOfOne(base + [a], b);
    assert [a] + [b] == [a, b];
  }
}
