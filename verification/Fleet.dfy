/** The output files of a fleet scan: every context writes its own, and the
    fleet report lands on none of them. */
module Fleet {
  import opened Sequences
  import opened Texts
  import opened Paths
  import opened Lexical
  import opened Separators
  import opened Joining

  const DEV_NULL := "/dev/null"

  /** What the checks take from their surroundings: the file system, the rule by
      which printers turn a format and --output into a file (with whether it is
      an explicit file), case folding, and os.SameFile on two existing files. */
  datatype Env = Env(
    fs: FileSystem,
    cwd: Cwd,
    resolveOutput: (string, string) -> (string, bool),
    lower: string -> string,
    sameFile: (string, string) -> bool)

  // ------------------------------------------------------- one context's own path

  function Sanitize(name: string): string {
    seq(|name|, i requires 0 <= i < |name| => if name[i] == '/' || name[i] == '\\' then '_' else name[i])
  }

  /** The context's name as it goes into the file name; "" refuses it. */
  function ContextName(kubeContext: string): string {
    TrimSpace(Sanitize(kubeContext))
  }

  /** One past the last `mark` in `s`, 0 without one. */
  function AfterLast(s: string, mark: char): (n: nat)
    ensures n <= |s|
    ensures n > 0 ==> s[n - 1] == mark
    ensures Free(s[n..], mark)
  {
    if s == [] then 0
    else if s[|s| - 1] == mark then |s|
    else AfterLast(s[..|s| - 1], mark)
  }

  /** filepath.Split */
  function DirOf(output: string): string {
    output[..AfterLast(output, '/')]
  }

  function BaseOf(output: string): string {
    output[AfterLast(output, '/')..]
  }

  /** filepath.Ext of a base name: from its last dot on. */
  function ExtOf(base: string): string {
    var n := AfterLast(base, '.');
    if n == 0 then "" else base[n - 1..]
  }

  /** The base name with the context's name in front of the extension. */
  function FileName(base: string, name: string): (file: string)
    ensures exists stem, ext :: IsExtension(stem, ext) && base == stem + ext && file == stem + "." + name + ext
  {
    var n := AfterLast(base, '.');
    assert n == 0 ==> base[0..] == base;
    assert n > 0 ==> base[n - 1..][1..] == base[n..];
    assert base == base[..|base| - |ExtOf(base)|] + ExtOf(base);
    assert IsExtension(base[..|base| - |ExtOf(base)|], ExtOf(base));
    base[..|base| - |ExtOf(base)|] + "." + name + ExtOf(base)
  }

  /** A base name cut into stem and extension: from its last dot on, or nowhere. */
  predicate IsExtension(stem: string, ext: string) {
    if ext == "" then Free(stem, '.') else ext[0] == '.' && Free(ext[1..], '.')
  }

  datatype Derived = Derived(path: string) | Nameless

  function PerContextOutputPath(output: string, kubeContext: string): Derived {
    if ContextName(kubeContext) == "" then Nameless
    else if TrimSpace(output) == DEV_NULL then Derived(DEV_NULL)
    else Derived(JoinPath(DirOf(output), FileName(BaseOf(output), ContextName(kubeContext))))
  }

  /** The one context that leaves the directory. */
  predicate Escapes(output: string, kubeContext: string) {
    BaseOf(output) == "" && ContextName(kubeContext) == "."
  }

  lemma FileNameIsPlain(output: string, kubeContext: string)
    requires ContextName(kubeContext) != ""
    ensures var file := FileName(BaseOf(output), ContextName(kubeContext));
            Free(file, '/') && file != "" && file != "." && (file == ".." <==> Escapes(output, kubeContext))
  {
    var name, base := ContextName(kubeContext), BaseOf(output);
    var file := FileName(base, name);
    TrimIsPart(IsSpaceChar, Sanitize(kubeContext));
    assert Free(name, '/');
    assert Free(base, '/');
    var stem := base[..|base| - |ExtOf(base)|];
    assert Free(stem, '/') && Free(ExtOf(base), '/');
    assert |file| == |base| + 1 + |name|;
    assert file[|stem|] == '.' && file[|stem| + 1] == name[0];
    if file == ".." {
      assert |name| == 1 && base == "";
      assert name == [name[0]] && file[1] == '.';
    }
    if base == "" && name == "." {
      assert file == "" + "." + "." + "";
    }
  }

  /** Links aside, a context's file is a direct child of the directory --output
      names, under a name that holds no separator. The one exception leads to the
      directory's parent: a context "." under an --output that ends in a separator. */
  lemma FileStaysLexically(output: string, kubeContext: string, cwd: Location)
    requires ContextName(kubeContext) != "" && TrimSpace(output) != DEV_NULL
    ensures var derived, dir := PerContextOutputPath(output, kubeContext), Lexically(cwd, DirOf(output));
            var file := FileName(BaseOf(output), ContextName(kubeContext));
            && derived.Derived? && Free(file, '/')
            && Lexically(cwd, derived.path) == if Escapes(output, kubeContext) then Parent(dir) else dir + [file]
  {
    var file := FileName(BaseOf(output), ContextName(kubeContext));
    FileNameIsPlain(output, kubeContext);
    JoinLeadsThere(cwd, DirOf(output), file);
    CleanOfOne(Lexically(cwd, DirOf(output)), file);
  }

  /** With links: the derived path leads to the context's file in the directory
      --output names, on every file system, if and only if no ".." comes after a name
      in them. */
  lemma DerivedLeadsThereIff(output: string, kubeContext: string, cwd: Location)
    requires ContextName(kubeContext) != "" && TrimSpace(output) != DEV_NULL
    ensures var derived, given := PerContextOutputPath(output, kubeContext),
                                  PosixComponents(DirOf(output)) + [FileName(BaseOf(output), ContextName(kubeContext))];
            && derived.Derived? && Start(cwd, derived.path) == Start(cwd, DirOf(output))
            && (SameEverywhere(Start(cwd, DirOf(output)), given, PosixComponents(derived.path)) <==> NoCancel(given))
  {
    FileNameIsPlain(output, kubeContext);
    JoinIffNoCancel(cwd, DirOf(output), FileName(BaseOf(output), ContextName(kubeContext)));
  }

  /** The context's file lands in the directory --output names, wherever links lead,
      if and only if the context does not escape and no ".." of the directory comes
      after a name. */
  lemma FileStaysIff(output: string, kubeContext: string, cwd: Location)
    requires ContextName(kubeContext) != "" && TrimSpace(output) != DEV_NULL
    ensures var derived := PerContextOutputPath(output, kubeContext);
            var file := FileName(BaseOf(output), ContextName(kubeContext));
            && derived.Derived?
            && (LandsInDirectory(cwd, DirOf(output), file, derived.path)
                <==> !Escapes(output, kubeContext) && NoCancel(PosixComponents(DirOf(output))))
  {
    FileNameIsPlain(output, kubeContext);
    LandsIffNoCancel(cwd, DirOf(output), FileName(BaseOf(output), ContextName(kubeContext)));
  }

  /** Such contexts exist, and do escape. */
  lemma DotEscapes(dir: string, cwd: Location)
    requires TrimSpace(dir + ['/']) != DEV_NULL
    ensures Escapes(dir + ['/'], ".")
    ensures var derived := PerContextOutputPath(dir + ['/'], ".");
            derived.Derived? && Lexically(cwd, derived.path) == Parent(Lexically(cwd, dir + ['/']))
  {
    var output := dir + ['/'];
    assert output[|output| - 1] == '/';
    assert DirOf(output) == output && BaseOf(output) == "";
    assert Sanitize(".") == ".";
    assert TrimSpace(".") == ".";
    FileStaysLexically(output, ".", cwd);
  }

  // ------------------------------------------------------------- the name of the file

  lemma ExtensionOfBase(stem: string, ext: string)
    requires IsExtension(stem, ext)
    ensures ExtOf(stem + ext) == ext
  {
    if ext == "" {
      assert stem + ext == stem;
      AfterLastOfFree(stem, '.');
    } else {
      assert stem + ext == (stem + ['.']) + ext[1..];
      AfterLastOf(stem + ['.'], ext[1..], '.');
      assert (stem + ext)[|stem|..] == ext;
    }
  }

  lemma NameBeforeExtension(stem: string, ext: string, name: string)
    requires IsExtension(stem, ext)
    ensures FileName(stem + ext, name) == stem + "." + name + ext
  {
    ExtensionOfBase(stem, ext);
    assert (stem + ext)[..|stem + ext| - |ext|] == stem;
  }

  /** `dir` is a directory part as filepath.Split leaves it, `base` the rest. */
  predicate IsSplit(dir: string, base: string) {
    (dir == "" || dir[|dir| - 1] == '/') && Free(base, '/')
  }

  lemma OutputIsSplit(dir: string, base: string)
    requires IsSplit(dir, base)
    ensures DirOf(dir + base) == dir && BaseOf(dir + base) == base
  {
    if dir == "" { assert dir + base == base; AfterLastOfFree(base, '/'); } else { AfterLastOf(dir, base, '/'); }
  }

  /** A path whose last component is `file`. */
  predicate EndsIn(path: string, file: string) {
    var cs := PosixComponents(path); cs != [] && cs[|cs| - 1] == file
  }

  lemma DerivedEndsInFile(output: string, kubeContext: string)
    requires ContextName(kubeContext) != "" && TrimSpace(output) != DEV_NULL && !Escapes(output, kubeContext)
    ensures var derived, file := PerContextOutputPath(output, kubeContext), FileName(BaseOf(output), ContextName(kubeContext));
            derived.Derived? && EndsIn(derived.path, file) && (DirOf(output) == "" ==> derived.path == file)
  {
    FileNameIsPlain(output, kubeContext);
    JoinEndsInFile(DirOf(output), FileName(BaseOf(output), ContextName(kubeContext)));
  }

  /** The context's name goes between the stem of the base name and its extension, and
      the derived path ends in that file: "report.json" gives "report.<context>.json". */
  lemma DerivedFile(dir: string, stem: string, ext: string, kubeContext: string)
    requires IsSplit(dir, stem + ext) && IsExtension(stem, ext)
    requires ContextName(kubeContext) != "" && TrimSpace(dir + (stem + ext)) != DEV_NULL
    requires !Escapes(dir + (stem + ext), kubeContext)
    ensures var derived, file := PerContextOutputPath(dir + (stem + ext), kubeContext), stem + "." + ContextName(kubeContext) + ext;
            && derived.Derived? && EndsIn(derived.path, file)
            && (dir == "" ==> derived.path == file)
  {
    OutputIsSplit(dir, stem + ext);
    NameBeforeExtension(stem, ext, ContextName(kubeContext));
    DerivedEndsInFile(dir + (stem + ext), kubeContext);
  }

  lemma BetweenIsDetermined(stem: string, x: string, y: string, ext: string)
    requires stem + "." + x + ext == stem + "." + y + ext
    ensures x == y
  {
    assert (stem + "." + x + ext)[|stem| + 1..][..|x|] == x;
    assert (stem + "." + y + ext)[|stem| + 1..][..|y|] == y;
  }

  /** Contexts get different files if and only if their sanitized names differ. */
  lemma NamesTellFilesApart(dir: string, stem: string, ext: string, a: string, b: string)
    requires IsSplit(dir, stem + ext) && IsExtension(stem, ext)
    requires ContextName(a) != "" && ContextName(b) != "" && TrimSpace(dir + (stem + ext)) != DEV_NULL
    requires !Escapes(dir + (stem + ext), a) && !Escapes(dir + (stem + ext), b)
    ensures PerContextOutputPath(dir + (stem + ext), a) == PerContextOutputPath(dir + (stem + ext), b)
       <==> ContextName(a) == ContextName(b)
  {
    DerivedFile(dir, stem, ext, a);
    DerivedFile(dir, stem, ext, b);
    var p, q := PerContextOutputPath(dir + (stem + ext), a), PerContextOutputPath(dir + (stem + ext), b);
    if p == q {
      BetweenIsDetermined(stem, ContextName(a), ContextName(b), ext);
    }
  }

  /** A name without separators and without blanks at its ends is kept as it is. */
  lemma PlainNameIsKept(name: string)
    requires Free(name, '/') && Free(name, '\\') && IsTrim(IsSpaceChar, name)
    ensures ContextName(name) == name
  {
    assert Sanitize(name) == name;
    TrimDrops(IsSpaceChar, "", name, "");
    assert "" + name + "" == name;
  }

  /** Refused are the names of nothing but blanks. */
  lemma NamelessIff(output: string, kubeContext: string)
    ensures PerContextOutputPath(output, kubeContext).Nameless? <==> AllBlank(IsSpaceChar, kubeContext)
  {
    var i, j := TrimCut(IsSpaceChar, Sanitize(kubeContext));
    assert forall k :: 0 <= k < |kubeContext| ==> (IsSpaceChar(Sanitize(kubeContext)[k]) <==> IsSpaceChar(kubeContext[k]));
  }

  /** Separators become underscores, and nothing else changes. */
  lemma SeparatorsAreReplaced(a: string, mark: char, b: string)
    requires mark == '/' || mark == '\\'
    ensures Sanitize(a + [mark] + b) == Sanitize(a) + "_" + Sanitize(b)
    ensures Free(a, '/') && Free(a, '\\') ==> Sanitize(a) == a
  {
  }

  /** What --output "link/../report" derives for a context. */
  lemma DerivedBesideLink(link: string, report: string, kubeContext: string)
    requires ProperName(link) && ProperName(report) && Free(report, '.') && ContextName(kubeContext) != ""
    requires TrimSpace(link + "/../" + report) != DEV_NULL
    ensures var output := link + "/../" + report;
            && DirOf(output) == link + "/../" && BaseOf(output) == report
            && PerContextOutputPath(output, kubeContext) == Derived(report + "." + ContextName(kubeContext))
  {
    var output, dir, file := link + "/../" + report, link + "/../", report + "." + ContextName(kubeContext);
    AfterLastOf(dir, report, '/');
    AfterLastOfFree(report, '.');
    assert report[..|report| - 0] == report;
    assert FileName(report, ContextName(kubeContext)) == file;
    FileNameIsPlain(output, kubeContext);
    JoinBesideLink(link, file);
  }

  lemma {:induction false} AfterLastOf(a: string, b: string, mark: char)
    requires a != [] && a[|a| - 1] == mark && Free(b, mark)
    ensures AfterLast(a + b, mark) == |a| && (a + b)[..|a|] == a && (a + b)[|a|..] == b
    decreases |b|
  {
    if b == [] {
      assert a + b == a;
    } else {
      var front := b[..|b| - 1];
      assert (a + b)[..|a + b| - 1] == a + front;
      AfterLastOf(a, front, mark);
    }
  }

  lemma {:induction false} AfterLastOfFree(s: string, mark: char)
    requires Free(s, mark)
    ensures AfterLast(s, mark) == 0
  {
    if s != [] { AfterLastOfFree(s[..|s| - 1], mark); }
  }

  /** Cleaning drops the link and the ".." after it. */
  lemma JoinBesideLink(link: string, file: string)
    requires ProperName(link) && Free(file, '/') && IsName(file)
    ensures JoinPath(link + "/../", file) == file && PosixComponents(link + "/../") == [link, ".."] && PosixComponents(file) == [file]
    ensures !IsAbs(link + "/../") && !IsAbs(file)
  {
    BesideLink(link);
    SplitOfFree(file, '/');
    NonEmptyOfNonEmpty([file]);
    assert link[0] in link && file[0] in file;
    var path := JoinedPath(link + "/../", file);
    ReducedBeside(link, file);
    assert Join([file], '/') == file;
  }

  lemma BesideLink(link: string)
    requires ProperName(link)
    ensures PosixComponents(link + "/../") == [link, ".."]
  {
    var dots: string := "..";
    assert link + "/../" == link + ['/'] + (dots + ['/']);
    TwoThenSlash(link, dots);
  }

  lemma ReducedBeside(link: string, file: string)
    requires IsName(link) && IsName(file)
    ensures Reduced(false, [], [link, ".."] + [file]) == [file]
  {
    var cs := [link, ".."] + [file];
    assert cs[1..] == ["..", file] && cs[1..][1..] == [file] && cs[1..][1..][1..] == [];
    assert [link][..0] == [] && [] + [link] == [link] && [] + [file] == [file];
    assert Reduced(false, [], cs) == Reduced(false, [link], cs[1..]);
    assert Reduced(false, [link], cs[1..]) == Reduced(false, [], [file]);
    assert Reduced(false, [file], []) == [file];
  }

  /** A context that does not escape by its name: --output names the directory at
      `dir`, and the derived path leads to `landed`. */
  ghost predicate GoesAstray(fs: FileSystem, cwd: Location, output: string, kubeContext: string, dir: Location, path: string, landed: Location) {
    && !Escapes(output, kubeContext)
    && PerContextOutputPath(output, kubeContext) == Derived(path)
    && Resolves(PosixComponents, fs, Start(cwd, DirOf(output)), PosixComponents(DirOf(output)), 1, dir)
    && Resolves(PosixComponents, fs, Start(cwd, path), PosixComponents(path), 0, landed)
    && Parent(landed) != dir
  }

  /** A context that is named like any other leaves the directory as well: under
      --output "link/../report" with the link leading to "far/down", the directory
      is "far" and the report goes into the one that holds the link. */
  lemma LinkedDirectoryIsLeft(cwd: Location, link: string, far: string, down: string, report: string, kubeContext: string)
    requires ProperName(link) && ProperName(far) && ProperName(down) && ProperName(report) && Free(report, '.')
    requires link != far && link != down && ContextName(kubeContext) != "" && link != report + "." + ContextName(kubeContext)
    requires TrimSpace(link + "/../" + report) != DEV_NULL
    ensures var file := report + "." + ContextName(kubeContext);
            GoesAstray(map[cwd + [link] := Target(far + "/" + down)], cwd, link + "/../" + report, kubeContext,
                       cwd + [far], file, cwd + [file])
  {
    var output, file := link + "/../" + report, report + "." + ContextName(kubeContext);
    DerivedBesideLink(link, report, kubeContext);
    FileNameIsPlain(output, kubeContext);
    AfterLastOfFree(report, '.');
    assert report[..|report| - 0] == report;
    assert FileName(report, ContextName(kubeContext)) == file;
    JoinBesideLink(link, file);
    var fs: FileSystem := map[cwd + [link] := Target(far + "/" + down)];
    DotsAfterLink(fs, cwd, link, far, down);
    assert LastOf(cwd + [link]) == link;
    NoLinkMet(PosixComponents, fs, cwd, [file]);
    CleanOfOne(cwd, file);
    assert Parent(cwd + [file]) == cwd;
  }

  lemma OneLetterContext(c: char)
    requires !IsSpaceChar(c) && c != '/' && c != '\\'
    ensures ContextName([c]) == [c]
  {
    assert Sanitize([c]) == [c];
  }

  lemma LettersAreProper(s: string)
    requires s != [] && forall i :: 0 <= i < |s| ==> 'a' <= s[i] <= 'z'
    ensures ProperName(s) && Free(s, '.')
  {
    assert s[0] in s;
  }

  lemma NotDiscarded(s: string)
    requires s != [] && 'a' <= s[0] <= 'z' && 'a' <= s[|s| - 1] <= 'z'
    ensures TrimSpace(s) != DEV_NULL
  {
    assert TrimSpace(s) == s;
  }

  /** One such input, for a process in "/w". */
  lemma DotsAfterLinkEscape()
    ensures GoesAstray(map[["w", "link"] := Target("t/s")], ["w"], "link/../r", "p", ["w", "t"], "r.p", ["w", "r.p"])
  {
    var link, far, down, report, context := "link", "t", "s", "r", "p";
    OneLetterContext('p');
    LettersAreProper(link);
    LettersAreProper(far);
    LettersAreProper(down);
    LettersAreProper(report);
    assert link + "/../" + report == "link/../r" && far + "/" + down == "t/s";
    NotDiscarded(link + "/../" + report);
    assert report + "." + context == "r.p" && |link| != |report + "." + context|;
    assert ["w"] + [link] == ["w", "link"] && ["w"] + [far] == ["w", "t"] && ["w"] + ["r.p"] == ["w", "r.p"];
    LinkedDirectoryIsLeft(["w"], link, far, down, report, context);
  }

  // ------------------------------------------------------ what the printers write

  /** The explicit files of the formats, in order, each once. */
  function Explicits(env: Env, outputPath: string, formats: seq<string>): (r: seq<string>)
    ensures forall i, j :: 0 <= i < j < |r| ==> r[i] != r[j]
  {
    if formats == [] then []
    else
      var init := Explicits(env, outputPath, formats[..|formats| - 1]);
      var (file, isExplicit) := env.resolveOutput(formats[|formats| - 1], outputPath);
      if !isExplicit || file == "" || file in init then init else init + [file]
  }

  /** Which files these are: those that some format resolves to explicitly. */
  lemma {:induction false} ExplicitsAreResolved(env: Env, outputPath: string, formats: seq<string>, d: string)
    ensures d in Explicits(env, outputPath, formats)
       <==> d != "" && exists i :: 0 <= i < |formats| && env.resolveOutput(formats[i], outputPath) == (d, true)
  {
    if formats != [] {
      var n := |formats| - 1;
      ExplicitsAreResolved(env, outputPath, formats[..n], d);
      assert forall i :: 0 <= i < n ==> formats[..n][i] == formats[i];
    }
  }

  /** They come in the order of the formats that first resolve to them. */
  lemma {:induction false} ExplicitsInOrder(env: Env, outputPath: string, formats: seq<string>) returns (at: seq<nat>)
    ensures var r := Explicits(env, outputPath, formats);
            && |at| == |r|
            && (forall k :: 0 <= k < |at| ==> at[k] < |formats| && env.resolveOutput(formats[at[k]], outputPath) == (r[k], true))
            && (forall k, i :: 0 <= k < |at| && 0 <= i < at[k] ==> env.resolveOutput(formats[i], outputPath) != (r[k], true))
    ensures forall k, l :: 0 <= k < l < |at| ==> at[k] < at[l]
  {
    at := [];
    if formats != [] {
      var n := |formats| - 1;
      at := ExplicitsInOrder(env, outputPath, formats[..n]);
      var init, r := Explicits(env, outputPath, formats[..n]), Explicits(env, outputPath, formats);
      assert forall i :: 0 <= i < n ==> formats[..n][i] == formats[i];
      if r != init {
        ExplicitsAreResolved(env, outputPath, formats[..n], r[|init|]);
        at := at + [n];
      }
    }
  }

  function Destinations(env: Env, outputPath: string, formats: seq<string>): seq<string> {
    if TrimSpace(outputPath) == DEV_NULL then []
    else if formats == [] then [outputPath]
    else Explicits(env, outputPath, formats)
  }

  /** What a context writes to: nothing when it is discarded, the derived path itself
      without formats, and otherwise the files its formats resolve to explicitly. */
  lemma DestinationsIff(env: Env, outputPath: string, formats: seq<string>, d: string)
    ensures d in Destinations(env, outputPath, formats)
       <==> && TrimSpace(outputPath) != "/dev/null"
            && if formats == [] then d == outputPath
               else d != "" && exists i :: 0 <= i < |formats| && env.resolveOutput(formats[i], outputPath) == (d, true)
  {
    ExplicitsAreResolved(env, outputPath, formats, d);
  }

  /** Discarding stays discarding: a context of "/dev/null" keeps that path and writes
      nothing. */
  lemma DiscardIsKept(env: Env, before: string, after: string, kubeContext: string, formats: seq<string>)
    requires AllBlank(IsSpaceChar, before) && AllBlank(IsSpaceChar, after) && ContextName(kubeContext) != ""
    ensures PerContextOutputPath(before + "/dev/null" + after, kubeContext) == Derived("/dev/null")
    ensures Destinations(env, "/dev/null", formats) == []
  {
    var sink := DEV_NULL;
    assert !IsSpaceChar(sink[0]) && !IsSpaceChar(sink[|sink| - 1]);
    TrimDrops(IsSpaceChar, before, sink, after);
    TrimDrops(IsSpaceChar, [], sink, []);
    assert [] + sink + [] == sink;
  }

  method PrinterDestinations(env: Env, outputPath: string, formats: seq<string>) returns (destinations: seq<string>)
    ensures destinations == Destinations(env, outputPath, formats)
  {
    if TrimSpace(outputPath) == DEV_NULL {
      return [];
    }
    if |formats| == 0 {
      return [outputPath];
    }
    var seen: set<string> := {};
    destinations := [];
    for i := 0 to |formats|
      invariant destinations == Explicits(env, outputPath, formats[..i])
      invariant forall d :: d in seen <==> d in destinations
    {
      assert formats[..i + 1][..i] == formats[..i];
      var (resolved, isExplicit) := env.resolveOutput(formats[i], outputPath);
      if !isExplicit || resolved == "" || resolved in seen {
        continue;
      }
      seen := seen + {resolved};
      destinations := destinations + [resolved];
    }
    assert formats[..|formats|] == formats;
  }

  // ------------------------------------------------------ all contexts of a fleet

  /** Destinations as they are compared, case folded; a discarded report has none. */
  function FoldedKeys(env: Env, output: string, kubeContext: string, formats: seq<string>): seq<string> {
    var d := PerContextOutputPath(output, kubeContext);
    if d.Nameless? || d.path == DEV_NULL then []
    else Folded(env, Destinations(env, d.path, formats))
  }

  function Folded(env: Env, files: seq<string>): seq<string> {
    seq(|files|, i requires 0 <= i < |files| => env.lower(files[i]))
  }

  function KeyLists(env: Env, output: string, kubeContexts: seq<string>, formats: seq<string>): seq<seq<string>> {
    seq(|kubeContexts|, i requires 0 <= i < |kubeContexts| => FoldedKeys(env, output, kubeContexts[i], formats))
  }

  function AllKeys(env: Env, output: string, kubeContexts: seq<string>, formats: seq<string>): seq<string> {
    Flatten(KeyLists(env, output, kubeContexts, formats))
  }

  lemma AllKeysAppend(env: Env, output: string, kubeContexts: seq<string>, formats: seq<string>, c: string)
    ensures AllKeys(env, output, kubeContexts + [c], formats)
         == AllKeys(env, output, kubeContexts, formats) + FoldedKeys(env, output, c, formats)
  {
    var lists := KeyLists(env, output, kubeContexts + [c], formats);
    assert lists[..|kubeContexts|] == KeyLists(env, output, kubeContexts, formats);
  }

  datatype PathsResult = Paths(paths: map<string, string>) | EmptyContext(kubeContext: string) | Colliding(keys: set<string>)

  ghost predicate AllNamed(output: string, kubeContexts: seq<string>) {
    forall c :: c in kubeContexts ==> PerContextOutputPath(output, c).Derived?
  }

  method PerContextOutputPaths(env: Env, output: string, kubeContexts: seq<string>, formats: seq<string>)
    returns (r: PathsResult)
    ensures r.EmptyContext? <==> !AllNamed(output, kubeContexts)
    ensures r.EmptyContext? ==> r.kubeContext in kubeContexts && PerContextOutputPath(output, r.kubeContext).Nameless?
    ensures r.Paths? <==> AllNamed(output, kubeContexts) && Distinct(AllKeys(env, output, kubeContexts, formats))
    ensures r.Paths? ==> PathsOf(output, kubeContexts, r.paths)
    ensures r.Colliding? ==> r.keys != {} && forall k :: k in r.keys <==>
      Count(AllKeys(env, output, kubeContexts, formats), k) > 1
  {
    var paths: map<string, string> := map[];
    var collisions: map<string, seq<string>> := map[];
    assert kubeContexts[..0] == [];
    for n := 0 to |kubeContexts|
      invariant Entered(env, output, kubeContexts[..n], formats, paths, collisions)
    {
      var c := kubeContexts[n];
      assert kubeContexts[..n + 1] == kubeContexts[..n] + [c];
      var derived := PerContextOutputPath(output, c);
      if derived.Nameless? {
        assert c in kubeContexts;
        return EmptyContext(c);
      }
      paths, collisions := Enter(env, output, kubeContexts[..n], c, formats, paths, collisions);
    }
    assert kubeContexts[..|kubeContexts|] == kubeContexts;
    var conflicts := set k | k in collisions && |collisions[k]| > 1;
    ConflictsAreRepeats(collisions, AllKeys(env, output, kubeContexts, formats), conflicts);
    return if conflicts != {} then Colliding(conflicts) else Paths(paths);
  }

  /** What the loop has for the contexts so far. */
  ghost predicate Entered(env: Env, output: string, kubeContexts: seq<string>, formats: seq<string>,
                          paths: map<string, string>, collisions: map<string, seq<string>>) {
    PathsOf(output, kubeContexts, paths) && Tallies(collisions, AllKeys(env, output, kubeContexts, formats))
  }

  /** The loop body: a named context's path, and its destinations under their keys. */
  method Enter(env: Env, output: string, ghost before: seq<string>, c: string, formats: seq<string>,
               paths: map<string, string>, collisions: map<string, seq<string>>)
    returns (paths': map<string, string>, collisions': map<string, seq<string>>)
    requires PerContextOutputPath(output, c).Derived?
    requires Entered(env, output, before, formats, paths, collisions)
    ensures Entered(env, output, before + [c], formats, paths', collisions')
  {
    AllKeysAppend(env, output, before, formats, c);
    var path := PerContextOutputPath(output, c).path;
    ghost var keys := AllKeys(env, output, before, formats);
    paths', collisions' := paths[c := path], collisions;
    if path != DEV_NULL {
      var destinations := PrinterDestinations(env, path, formats);
      collisions' := Record(env, collisions, c, destinations, keys);
    } else {
      assert keys + FoldedKeys(env, output, c, formats) == keys;
    }
  }

  /** Every context has its derived path. */
  ghost predicate PathsOf(output: string, kubeContexts: seq<string>, paths: map<string, string>) {
    && (forall c :: c in paths <==> c in kubeContexts)
    && (forall c :: c in paths ==> PerContextOutputPath(output, c) == Derived(paths[c]))
  }

  lemma ConflictsAreRepeats(collisions: map<string, seq<string>>, keys: seq<string>, conflicts: set<string>)
    requires Tallies(collisions, keys)
    requires forall k :: k in conflicts <==> k in collisions && |collisions[k]| > 1
    ensures forall k :: k in conflicts <==> Count(keys, k) > 1
    ensures conflicts == {} <==> Distinct(keys)
  {
    forall k ensures k in conflicts <==> Count(keys, k) > 1 {
      CountIn(keys, k);
    }
    if Distinct(keys) {
      forall k ensures k !in conflicts { DistinctCounts(keys, k); }
    } else {
      var i, j :| 0 <= i < j < |keys| && keys[i] == keys[j];
      RepeatCounts(keys, i, j);
      assert keys[i] in conflicts;
    }
  }

  /** The collision lists hold one context for every occurrence of a key. */
  ghost predicate Tallies(collisions: map<string, seq<string>>, keys: seq<string>) {
    forall k :: (k in collisions <==> k in keys) && (k in collisions ==> |collisions[k]| == Count(keys, k))
  }

  lemma TallyOne(collisions: map<string, seq<string>>, keys: seq<string>, key: string, kubeContext: string)
    requires Tallies(collisions, keys)
    ensures Tallies(collisions[key := (if key in collisions then collisions[key] else []) + [kubeContext]], keys + [key])
  {
    forall k ensures Count(keys + [key], k) == Count(keys, k) + if k == key then 1 else 0 {
      CountAppend(keys, [key], k);
    }
    CountIn(keys, key);
  }

  /** The inner loop: one context's destinations entered under their keys. */
  method Record(env: Env, collisions: map<string, seq<string>>, kubeContext: string, destinations: seq<string>,
                ghost before: seq<string>) returns (r: map<string, seq<string>>)
    requires Tallies(collisions, before)
    ensures Tallies(r, before + Folded(env, destinations))
  {
    ghost var folded := Folded(env, destinations);
    r := collisions;
    assert before + folded[..0] == before;
    for i := 0 to |destinations|
      invariant Tallies(r, before + folded[..i])
    {
      var key := env.lower(destinations[i]);
      assert before + folded[..i + 1] == (before + folded[..i]) + [key];
      TallyOne(r, before + folded[..i], key, kubeContext);
      r := r[key := (if key in r then r[key] else []) + [kubeContext]];
    }
    assert folded[..|destinations|] == folded;
  }

  /** Accepted, no two places in the context list share a destination, even up
      to case; discarded reports aside. */
  lemma AcceptedContextsAreApart(env: Env, output: string, kubeContexts: seq<string>, formats: seq<string>, i: nat, j: nat, d: string, e: string)
    requires i < j < |kubeContexts|
    requires AllNamed(output, kubeContexts) && Distinct(AllKeys(env, output, kubeContexts, formats))
    requires var p, q := PerContextOutputPath(output, kubeContexts[i]), PerContextOutputPath(output, kubeContexts[j]);
             && p.Derived? && p.path != DEV_NULL && d in Destinations(env, p.path, formats)
             && q.Derived? && q.path != DEV_NULL && e in Destinations(env, q.path, formats)
    ensures env.lower(d) != env.lower(e)
  {
    DestinationIsKey(env, output, kubeContexts[i], formats, d);
    DestinationIsKey(env, output, kubeContexts[j], formats, e);
    var lists := KeyLists(env, output, kubeContexts, formats);
    if env.lower(d) == env.lower(e) {
      TwiceInFlatten(lists, i, j, env.lower(d));
      DistinctCounts(Flatten(lists), env.lower(d));
    }
  }

  lemma DestinationIsKey(env: Env, output: string, kubeContext: string, formats: seq<string>, d: string)
    requires var p := PerContextOutputPath(output, kubeContext);
             p.Derived? && p.path != DEV_NULL && d in Destinations(env, p.path, formats)
    ensures env.lower(d) in FoldedKeys(env, output, kubeContext, formats)
  {
    var files := Destinations(env, PerContextOutputPath(output, kubeContext).path, formats);
    var a :| 0 <= a < |files| && files[a] == d;
    assert FoldedKeys(env, output, kubeContext, formats)[a] == env.lower(d);
  }

  /** A report of the context that is not discarded. */
  predicate Writes(env: Env, output: string, kubeContext: string, formats: seq<string>, d: string) {
    var p := PerContextOutputPath(output, kubeContext);
    p.Derived? && p.path != DEV_NULL && d in Destinations(env, p.path, formats)
  }

  /** Two places in the context list, or two files of one context, share a destination
      up to case. */
  ghost predicate Clash(env: Env, output: string, kubeContexts: seq<string>, formats: seq<string>) {
    exists i, j, d, e :: ClashAt(env, output, kubeContexts, formats, i, j, d, e)
  }

  predicate ClashAt(env: Env, output: string, kubeContexts: seq<string>, formats: seq<string>, i: nat, j: nat, d: string, e: string) {
    && i <= j < |kubeContexts| && (i == j ==> d != e) && env.lower(d) == env.lower(e)
    && Writes(env, output, kubeContexts[i], formats, d) && Writes(env, output, kubeContexts[j], formats, e)
  }

  lemma KeyIsDestination(env: Env, output: string, kubeContext: string, formats: seq<string>, key: string) returns (d: string)
    requires key in FoldedKeys(env, output, kubeContext, formats)
    ensures Writes(env, output, kubeContext, formats, d) && env.lower(d) == key
  {
    var files := Destinations(env, PerContextOutputPath(output, kubeContext).path, formats);
    var a :| 0 <= a < |files| && Folded(env, files)[a] == key;
    d := files[a];
  }

  lemma DestinationsAreDistinct(env: Env, path: string, formats: seq<string>)
    ensures Distinct(Destinations(env, path, formats))
  {
  }

  lemma KeyTwiceIsTwoFiles(env: Env, output: string, kubeContext: string, formats: seq<string>, key: string) returns (d: string, e: string)
    requires Count(FoldedKeys(env, output, kubeContext, formats), key) > 1
    ensures Writes(env, output, kubeContext, formats, d) && Writes(env, output, kubeContext, formats, e)
    ensures d != e && env.lower(d) == key == env.lower(e)
  {
    var keys := FoldedKeys(env, output, kubeContext, formats);
    var a, b := CountedTwice(keys, key);
    var files := Destinations(env, PerContextOutputPath(output, kubeContext).path, formats);
    DestinationsAreDistinct(env, PerContextOutputPath(output, kubeContext).path, formats);
    d, e := files[a], files[b];
  }

  /** Refused batches do clash, and clashing ones are refused: a batch of named
      contexts is accepted if and only if no two reports go to one file. */
  lemma RefusedIffClash(env: Env, output: string, kubeContexts: seq<string>, formats: seq<string>)
    requires AllNamed(output, kubeContexts)
    ensures Distinct(AllKeys(env, output, kubeContexts, formats)) <==> !Clash(env, output, kubeContexts, formats)
  {
    var keys := AllKeys(env, output, kubeContexts, formats);
    if !Distinct(keys) {
      var a, b :| 0 <= a < b < |keys| && keys[a] == keys[b];
      RepeatCounts(keys, a, b);
      RepeatIsClash(env, output, kubeContexts, formats, keys[a]);
    }
    if i, j, d, e :| ClashAt(env, output, kubeContexts, formats, i, j, d, e) {
      ClashIsRepeat(env, output, kubeContexts, formats, i, j, d, e);
    }
  }

  lemma RepeatIsClash(env: Env, output: string, kubeContexts: seq<string>, formats: seq<string>, key: string)
    requires Count(AllKeys(env, output, kubeContexts, formats), key) > 1
    ensures Clash(env, output, kubeContexts, formats)
  {
    var lists := KeyLists(env, output, kubeContexts, formats);
    FlattenRepeats(lists, key);
    if i, j :| 0 <= i < j < |lists| && key in lists[i] && key in lists[j] {
      var d := KeyIsDestination(env, output, kubeContexts[i], formats, key);
      var e := KeyIsDestination(env, output, kubeContexts[j], formats, key);
      assert ClashAt(env, output, kubeContexts, formats, i, j, d, e);
    } else {
      var i :| 0 <= i < |lists| && Count(lists[i], key) > 1;
      var d, e := KeyTwiceIsTwoFiles(env, output, kubeContexts[i], formats, key);
      assert ClashAt(env, output, kubeContexts, formats, i, i, d, e);
    }
  }

  lemma ClashIsRepeat(env: Env, output: string, kubeContexts: seq<string>, formats: seq<string>, i: nat, j: nat, d: string, e: string)
    requires AllNamed(output, kubeContexts) && ClashAt(env, output, kubeContexts, formats, i, j, d, e)
    ensures !Distinct(AllKeys(env, output, kubeContexts, formats))
  {
    if i < j {
      if Distinct(AllKeys(env, output, kubeContexts, formats)) {
        AcceptedContextsAreApart(env, output, kubeContexts, formats, i, j, d, e);
      }
    } else {
      var lists := KeyLists(env, output, kubeContexts, formats);
      TwoFilesOneKey(env, output, kubeContexts[i], formats, d, e);
      FlattenCountsAll(lists, i, env.lower(d));
      if Distinct(Flatten(lists)) {
        DistinctCounts(Flatten(lists), env.lower(d));
      }
    }
  }

  lemma TwoFilesOneKey(env: Env, output: string, kubeContext: string, formats: seq<string>, d: string, e: string)
    requires Writes(env, output, kubeContext, formats, d) && Writes(env, output, kubeContext, formats, e)
    requires d != e && env.lower(d) == env.lower(e)
    ensures Count(FoldedKeys(env, output, kubeContext, formats), env.lower(d)) > 1
  {
    var files := Destinations(env, PerContextOutputPath(output, kubeContext).path, formats);
    var a :| 0 <= a < |files| && files[a] == d;
    var b :| 0 <= b < |files| && files[b] == e;
    var keys := FoldedKeys(env, output, kubeContext, formats);
    assert keys[a] == env.lower(d) && keys[b] == env.lower(e);
    if a < b { RepeatCounts(keys, a, b); } else { RepeatCounts(keys, b, a); }
  }

  // ---------------------------------------------------------- the fleet report

  datatype Verdict = Passed | Unresolved(path: string) | Overwrites(kubeContext: string)

  /** A destination the fleet report cannot land on. */
  predicate Apart(env: Env, fleetReport: string, destination: string) {
    var target, resolved := ResolvePathSpec(env.fs, env.cwd, fleetReport), ResolvePathSpec(env.fs, env.cwd, destination);
    target.Ok? && resolved.Ok? && resolved.loc != target.loc && !env.sameFile(fleetReport, destination)
  }

  /** The fleet report would overwrite this destination. */
  predicate Hits(env: Env, fleetReport: string, destination: string) {
    var target, resolved := ResolvePathSpec(env.fs, env.cwd, fleetReport), ResolvePathSpec(env.fs, env.cwd, destination);
    target.Ok? && resolved.Ok? && (resolved.loc == target.loc || env.sameFile(fleetReport, destination))
  }

  /** fleetReportAliasesPerContextReport; the map may be walked in any order. */
  method FleetReportAliases(env: Env, fleetReport: string, outputPaths: map<string, string>, formats: seq<string>)
    returns (v: Verdict)
    ensures v.Passed? <==>
      && ResolvePathSpec(env.fs, env.cwd, fleetReport).Ok?
      && forall c :: c in outputPaths ==>
           forall d :: d in Destinations(env, outputPaths[c], formats) ==> Apart(env, fleetReport, d)
    ensures v.Overwrites? ==>
      && v.kubeContext in outputPaths
      && exists d :: d in Destinations(env, outputPaths[v.kubeContext], formats) && Hits(env, fleetReport, d)
    ensures v.Unresolved? ==>
      && !ResolvePathSpec(env.fs, env.cwd, v.path).Ok?
      && (v.path == fleetReport || exists c :: c in outputPaths && v.path in Destinations(env, outputPaths[c], formats))
  {
    var target := ResolvePath(env.fs, env.cwd, fleetReport);
    if !target.Ok? {
      return Unresolved(fleetReport);
    }
    var left := outputPaths.Keys;
    while left != {}
      invariant left <= outputPaths.Keys
      invariant forall c :: c in outputPaths && c !in left ==>
        forall d :: d in Destinations(env, outputPaths[c], formats) ==> Apart(env, fleetReport, d)
      decreases left
    {
      var c :| c in left;
      var destinations := PrinterDestinations(env, outputPaths[c], formats);
      for i := 0 to |destinations|
        invariant forall d :: d in destinations[..i] ==> Apart(env, fleetReport, d)
      {
        var d := destinations[i];
        assert destinations[..i + 1] == destinations[..i] + [d];
        var resolved := ResolvePath(env.fs, env.cwd, d);
        if !resolved.Ok? || resolved.loc == target.loc || env.sameFile(fleetReport, d) {
          assert !Apart(env, fleetReport, d) && d in destinations;
          assert resolved.Ok? ==> Hits(env, fleetReport, d);
          return if resolved.Ok? then Overwrites(c) else Unresolved(d);
        }
      }
      assert destinations[..|destinations|] == destinations;
      left := left - {c};
    }
    return Passed;
  }

  /** The path leads there over at most 64 links. */
  ghost predicate LeadsTo(fs: FileSystem, cwd: string, path: string, loc: Location) {
    exists n: nat :: n <= 64 && Resolves(SplitPath, fs, [], Components(cwd, path), n, loc)
  }

  lemma LeadsToIff(fs: FileSystem, cwd: string, path: string, loc: Location)
    ensures LeadsTo(fs, cwd, path, loc) <==> ResolvePathSpec(fs, Dir(cwd), path) == Ok(loc)
  {
    ResolvesWithinHops(fs, cwd, path, loc);
    if n: nat :| n <= 64 && Resolves(SplitPath, fs, [], Components(cwd, path), n, loc) {
      assert Resolves(SplitPath, fs, [], Components(cwd, path), n, loc);
    }
  }

  /** What passing means on the file system: report and destination lead to different
      locations, and are not one file under two names either. */
  lemma ApartIff(env: Env, cwd: string, fleetReport: string, destination: string)
    requires env.cwd == Dir(cwd)
    ensures Apart(env, fleetReport, destination)
       <==> && !env.sameFile(fleetReport, destination)
            && exists x, y :: LeadsTo(env.fs, cwd, fleetReport, x) && LeadsTo(env.fs, cwd, destination, y) && x != y
  {
    forall loc
      ensures LeadsTo(env.fs, cwd, fleetReport, loc) <==> ResolvePathSpec(env.fs, env.cwd, fleetReport) == Ok(loc)
      ensures LeadsTo(env.fs, cwd, destination, loc) <==> ResolvePathSpec(env.fs, env.cwd, destination) == Ok(loc)
    {
      LeadsToIff(env.fs, cwd, fleetReport, loc);
      LeadsToIff(env.fs, cwd, destination, loc);
    }
    var target, resolved := ResolvePathSpec(env.fs, env.cwd, fleetReport), ResolvePathSpec(env.fs, env.cwd, destination);
    if target.Ok? && resolved.Ok? {
      assert LeadsTo(env.fs, cwd, fleetReport, target.loc) && LeadsTo(env.fs, cwd, destination, resolved.loc);
    }
  }

  /** Both checks together, as validateFleetScanInvocation runs them: what is
      accepted keeps all reports apart. */
  method ValidateFleetOutputs(env: Env, output: string, kubeContexts: seq<string>, formats: seq<string>,
                              requested: bool, fleetReport: string) returns (paths: PathsResult, v: Verdict)
    ensures paths.Paths? && v.Passed? ==>
      && (forall i, j, d, e ::
            0 <= i < j < |kubeContexts|
            && kubeContexts[i] in paths.paths && kubeContexts[j] in paths.paths
            && paths.paths[kubeContexts[i]] != DEV_NULL && d in Destinations(env, paths.paths[kubeContexts[i]], formats)
            && paths.paths[kubeContexts[j]] != DEV_NULL && e in Destinations(env, paths.paths[kubeContexts[j]], formats)
            ==> env.lower(d) != env.lower(e))
      && (forall c :: c in kubeContexts ==> c in paths.paths)
      && (requested ==> forall c, d :: c in paths.paths && d in Destinations(env, paths.paths[c], formats) ==>
            Apart(env, fleetReport, d))
  {
    v := Passed;
    paths := PerContextOutputPaths(env, output, kubeContexts, formats);
    if !paths.Paths? {
      return;
    }
    if requested {
      v := FleetReportAliases(env, fleetReport, paths.paths, formats);
    }
    forall i, j, d, e |
      0 <= i < j < |kubeContexts|
      && kubeContexts[i] in paths.paths && kubeContexts[j] in paths.paths
      && paths.paths[kubeContexts[i]] != DEV_NULL && d in Destinations(env, paths.paths[kubeContexts[i]], formats)
      && paths.paths[kubeContexts[j]] != DEV_NULL && e in Destinations(env, paths.paths[kubeContexts[j]], formats)
      ensures env.lower(d) != env.lower(e)
    {
      AcceptedContextsAreApart(env, output, kubeContexts, formats, i, j, d, e);
    }
  }

  // ------------------------------------------------- reports that links bring together

  /** Contexts are kept apart by the names of their destinations alone. A link
      between two of them brings them together: both reports go to one file. */
  lemma LinkedReportsCollide(cwd: string, dir: string, a: string, b: string)
    requires ProperName(dir) && ProperName(a) && ProperName(b) && a != b
    ensures var fs: FileSystem := map[[dir, b] := Target(a)];
            && Render([dir, a]) != Render([dir, b])
            && ResolvePathSpec(fs, Dir(cwd), Render([dir, a])) == Ok([dir, a])
            && ResolvePathSpec(fs, Dir(cwd), Render([dir, b])) == Ok([dir, a])
  {
    var fs: FileSystem := map[[dir, b] := Target(a)];
    RenderIsInjective([dir, a], [dir, b]);
    SplitOfRender([dir, a]);
    SplitOfRender([dir, b]);
    SplitOfName(a);
    WalkInDirectory(fs, [dir], a, MAX_HOPS);
    assert [dir, b][1..] == [b] && [dir, a][1..] == [a] && [b][1..] == [];
    assert [] + [dir] == [dir] && [dir] + [b] == [dir, b] && [dir] + [a] == [dir, a];
    assert [dir, a][1] == a && [dir, b][1] == b;
    assert Walk(fs, [dir], SplitPath(a), MAX_HOPS - 1) == Located([dir, a], MAX_HOPS - 1) by {
      WalkInDirectory(fs, [dir], a, MAX_HOPS - 1);
    }
    assert Walk(fs, [dir], [b], MAX_HOPS) == Walk(fs, [dir, a], [], MAX_HOPS - 1);
  }

  lemma SplitOfName(name: string)
    requires ProperName(name)
    ensures SplitPath(name) == [name] && !IsAbs(name)
  {
    assert Slashes(name) == name;
    SplitPathParts(name);
    SplitOfFree(name, '/');
    NonEmptyOfNonEmpty([name]);
    assert name[0] in name;
  }

  lemma WalkInDirectory(fs: FileSystem, dir: Location, name: string, budget: nat)
    requires ProperName(name) && dir + [name] !in fs
    ensures Walk(fs, dir, [name], budget) == Located(dir + [name], budget)
  {
    var one: seq<string> := [name];
    assert one[1..] == [];
  }

  /** Destinations of one directory that are not themselves links resolve apart,
      whatever links lead to the directory. */
  lemma PlainFilesResolveApart(fs: FileSystem, cwd: string, d: string, e: string, dir: seq<string>, f: string, g: string)
    requires Components(cwd, d) == dir + [f] && Components(cwd, e) == dir + [g]
    requires ProperName(f) && ProperName(g) && f != g
    requires var w := Walk(fs, [], dir, MAX_HOPS); w.Located? && w.loc + [f] !in fs && w.loc + [g] !in fs
    ensures var x, y := ResolvePathSpec(fs, Dir(cwd), d), ResolvePathSpec(fs, Dir(cwd), e);
            x.Ok? && y.Ok? && x.loc != y.loc
  {
    var w := Walk(fs, [], dir, MAX_HOPS);
    WalkAppend(fs, [], dir, [f], MAX_HOPS);
    WalkAppend(fs, [], dir, [g], MAX_HOPS);
    WalkInDirectory(fs, w.loc, f, w.left);
    WalkInDirectory(fs, w.loc, g, w.left);
    assert (w.loc + [f])[|w.loc|] == f && (w.loc + [g])[|w.loc|] == g;
  }
}
