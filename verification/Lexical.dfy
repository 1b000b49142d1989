/** filepath.Clean and filepath.Join on POSIX, and where the paths they return lead
    when no link is on the way. */
module Lexical {
  import opened Sequences
  import opened Paths

  /** The components with "." dropped and ".." cancelled against the name before it;
      a ".." at the root goes, one at the start of a relative path stays. */
  function Reduced(rooted: bool, done: seq<string>, cs: seq<string>): seq<string>
    decreases |cs|
  {
    if cs == [] then done
    else if cs[0] == "." || cs[0] == "" then Reduced(rooted, done, cs[1..])
    else if cs[0] == ".." then
      if done != [] && done[|done| - 1] != ".." then Reduced(rooted, done[..|done| - 1], cs[1..])
      else if rooted then Reduced(rooted, done, cs[1..])
      else Reduced(rooted, done + [".."], cs[1..])
    else Reduced(rooted, done + [cs[0]], cs[1..])
  }

  /** filepath.Clean */
  function CleanPath(path: string): string {
    var cs := Reduced(IsAbs(path), [], PosixComponents(path));
    if IsAbs(path) then Render(cs) else if cs == [] then "." else Join(cs, '/')
  }

  /** filepath.Join of a directory and a file name. */
  function JoinPath(dir: string, file: string): string {
    CleanPath(if dir == "" then file else dir + ['/'] + file)
  }

  /** Where the walk of a path starts. */
  function Start(cwd: Location, path: string): Location {
    if IsAbs(path) then [] else cwd
  }

  /** Where a path leads from the working directory when no link is on the way. */
  function Lexically(cwd: Location, path: string): Location {
    Clean(Start(cwd, path), PosixComponents(path))
  }

  lemma {:induction false} CleanAppend(base: Location, a: seq<string>, b: seq<string>)
    ensures Clean(base, a + b) == Clean(Clean(base, a), b)
    decreases |a|
  {
    if a == [] {
      assert a + b == b;
    } else {
      assert (a + b)[0] == a[0] && (a + b)[1..] == a[1..] + b;
      CleanAppend(if a[0] == "." || a[0] == "" then base else if a[0] == ".." then Parent(base) else base + [a[0]], a[1..], b);
    }
  }

  lemma CleanOfOne(base: Location, c: string)
    ensures Clean(base, [c]) == if c == "." || c == "" then base else if c == ".." then Parent(base) else base + [c]
  {
    var one: seq<string> := [c];
    assert one[1..] == [];
  }

  /** Reduction changes no destination. */
  lemma {:induction false} ReducedLeadsThere(rooted: bool, base: Location, done: seq<string>, cs: seq<string>)
    requires rooted ==> base == [] && forall i :: 0 <= i < |done| ==> done[i] != ".."
    requires forall c :: c in done ==> c != "" && c != "."
    ensures Clean(base, Reduced(rooted, done, cs)) == Clean(Clean(base, done), cs)
    decreases |cs|
  {
    if cs != [] {
      var rest := cs[1..];
      assert cs == [cs[0]] + rest;
      CleanAppend(Clean(base, done), [cs[0]], rest);
      CleanOfOne(Clean(base, done), cs[0]);
      CleanAppend(base, done, [cs[0]]);
      if cs[0] == "." || cs[0] == "" {
        ReducedLeadsThere(rooted, base, done, rest);
      } else if cs[0] != ".." {
        ReducedLeadsThere(rooted, base, done + [cs[0]], rest);
      } else if done != [] && done[|done| - 1] != ".." {
        var front := done[..|done| - 1];
        assert done[|done| - 1] in done;
        assert done == front + [done[|done| - 1]];
        assert forall c :: c in front ==> c in done;
        LastCancels(base, done);
        ReducedLeadsThere(rooted, base, front, rest);
      } else if rooted {
        ReducedLeadsThere(rooted, base, done, rest);
      } else {
        ReducedLeadsThere(rooted, base, done + [".."], rest);
      }
    }
  }

  lemma LastCancels(base: Location, done: seq<string>)
    requires done != [] && done[|done| - 1] != ".." && done[|done| - 1] != "." && done[|done| - 1] != ""
    ensures Parent(Clean(base, done)) == Clean(base, done[..|done| - 1])
  {
    var front, last := done[..|done| - 1], done[|done| - 1];
    assert done == front + [last];
    CleanAppend(base, front, [last]);
    CleanOfOne(Clean(base, front), last);
  }

  /** A name at the end stays at the end. */
  lemma {:induction false} ReducedKeepsLast(rooted: bool, done: seq<string>, cs: seq<string>, name: string)
    requires name != "" && name != "." && name != ".."
    ensures Reduced(rooted, done, cs + [name]) == Reduced(rooted, done, cs) + [name]
    decreases |cs|
  {
    if cs == [] {
      assert cs + [name] == [name] && [name][1..] == [];
    } else {
      assert (cs + [name])[0] == cs[0] && (cs + [name])[1..] == cs[1..] + [name];
      if cs[0] == "." || cs[0] == "" { ReducedKeepsLast(rooted, done, cs[1..], name); }
      else if cs[0] != ".." { ReducedKeepsLast(rooted, done + [cs[0]], cs[1..], name); }
      else if done != [] && done[|done| - 1] != ".." { ReducedKeepsLast(rooted, done[..|done| - 1], cs[1..], name); }
      else if rooted { ReducedKeepsLast(rooted, done, cs[1..], name); }
      else { ReducedKeepsLast(rooted, done + [".."], cs[1..], name); }
    }
  }

  predicate AreNames(cs: seq<string>) {
    forall c :: c in cs ==> c != "" && Free(c, '/')
  }

  /** Reduced components are still names without separators. */
  lemma {:induction false} ReducedAreNames(rooted: bool, done: seq<string>, cs: seq<string>)
    requires AreNames(done) && AreNames(cs)
    ensures AreNames(Reduced(rooted, done, cs))
    decreases |cs|
  {
    if cs != [] {
      var rest := cs[1..];
      assert cs == [cs[0]] + rest;
      assert forall c :: c in rest ==> c in cs;
      if cs[0] == "." || cs[0] == "" {
        ReducedAreNames(rooted, done, rest);
      } else if cs[0] != ".." {
        ReducedAreNames(rooted, done + [cs[0]], rest);
      } else if done != [] && done[|done| - 1] != ".." {
        var front := done[..|done| - 1];
        forall c | c in front ensures c in done {}
        ReducedAreNames(rooted, front, rest);
      } else if rooted {
        ReducedAreNames(rooted, done, rest);
      } else {
        ReducedAreNames(rooted, done + [".."], rest);
      }
    }
  }

  /** The components of a joined text. */
  lemma JoinedComponents(cs: seq<string>)
    requires cs != [] && AreNames(cs)
    ensures PosixComponents(Join(cs, '/')) == cs && !IsAbs(Join(cs, '/'))
    ensures PosixComponents(Render(cs)) == cs
  {
    var text := Join(cs, '/');
    SplitOfJoin(cs, '/');
    NonEmptyOfNonEmpty(cs);
    assert cs[0] in cs;
    assert cs[0][0] in cs[0];
    assert text[0] == cs[0][0];
    assert Render(cs)[0] == '/' && Render(cs)[1..] == text;
    RootIsNoComponent(Render(cs));
  }

  lemma CleanedComponents(path: string)
    ensures var cs := Reduced(IsAbs(path), [], PosixComponents(path));
            PosixComponents(CleanPath(path)) == if cs == [] && !IsAbs(path) then ["."] else cs
    ensures IsAbs(CleanPath(path)) == IsAbs(path)
  {
    var cs := Reduced(IsAbs(path), [], PosixComponents(path));
    ComponentsAreNames(path);
    ReducedAreNames(IsAbs(path), [], PosixComponents(path));
    if cs != [] { JoinedComponents(cs); } else { EmptyComponents(); }
  }

  /** Links aside, cleaning a path changes neither where it leads nor whether it is
      absolute. */
  lemma CleanPathLeadsThere(cwd: Location, path: string)
    ensures Lexically(cwd, CleanPath(path)) == Lexically(cwd, path)
    ensures IsAbs(CleanPath(path)) == IsAbs(path)
  {
    var base, given := Start(cwd, path), PosixComponents(path);
    CleanedComponents(path);
    ReducedLeadsThere(IsAbs(path), base, [], given);
    CleanOfOne(base, ".");
  }

  lemma EmptyComponents()
    ensures PosixComponents(Render([])) == [] && PosixComponents(".") == ["."] && PosixComponents("") == []
  {
    SplitOfFree(".", '/');
    NonEmptyOfNonEmpty(["."]);
    assert Split("/", '/') == [[]] + Split([], '/');
    assert Split([], '/') == [[]];
    assert NonEmpty([[], []]) == NonEmpty([[]]) && NonEmpty([[]]) == NonEmpty([]);
    assert Render([]) == "/";
  }

  /** What joining cleans: the directory's components and the file. */
  lemma JoinedPath(dir: string, file: string) returns (path: string)
    requires file != "" && Free(file, '/')
    ensures JoinPath(dir, file) == CleanPath(path) && IsAbs(path) == IsAbs(dir)
    ensures PosixComponents(path) == PosixComponents(dir) + [file]
  {
    SplitOfFree(file, '/');
    NonEmptyOfNonEmpty([file]);
    assert file[0] in file;
    if dir == "" {
      path := file;
      EmptyComponents();
    } else {
      path := dir + ['/'] + file;
      SplitAppend(dir, '/', file);
      NonEmptyAppend(Split(dir, '/'), Split(file, '/'));
      assert path[0] == dir[0];
    }
  }

  /** A joined path leads to the file in the directory, links aside, with "." and ".."
      read as file names never are. */
  lemma JoinLeadsThere(cwd: Location, dir: string, file: string)
    requires file != "" && Free(file, '/')
    ensures Lexically(cwd, JoinPath(dir, file)) == Clean(Lexically(cwd, dir), [file])
  {
    var path := JoinedPath(dir, file);
    CleanPathLeadsThere(cwd, path);
    CleanAppend(Start(cwd, dir), PosixComponents(dir), [file]);
  }

  /** The joined path ends in the file. */
  lemma JoinEndsInFile(dir: string, file: string)
    requires file != "" && file != "." && file != ".." && Free(file, '/')
    ensures var cs := PosixComponents(JoinPath(dir, file)); cs != [] && cs[|cs| - 1] == file
    ensures dir == "" ==> JoinPath(dir, file) == file
  {
    var path := JoinedPath(dir, file);
    CleanedComponents(path);
    ReducedKeepsLast(IsAbs(path), [], PosixComponents(dir), file);
    if dir == "" {
      EmptyComponents();
      assert file[0] in file;
      assert [] + [file] == [file] && Join([file], '/') == file;
    }
  }
}
