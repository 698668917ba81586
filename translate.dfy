/**
 * `translate_to_repo_paths`: each existing search-path entry that belongs to a package with a
 * local clone is replaced by the matching directory inside that clone; the others are either
 * kept for copying or dropped.
 */
module RepoTranslate {
  import opened Wrappers
  import opened PathText
  import opened Glob
  import opened Sites
  import opened RootPattern
  import opened FileSystem
  import opened Confgen
  import opened GetRepos

  /** What happens to one input path. */
  datatype Route = Dropped | Copied | Translated(target: Path)

  /** `relpath` is tried as given, then with its first segment removed, and so on: the suffix
      starting at `i` is tried exactly when it is non-empty and starts a segment. */
  predicate IsCandidateStart(rel: string, i: int) {
    0 <= i < |rel| && (i == 0 || rel[i - 1] == '/')
  }

  /** The `while relpath` loop: the first candidate suffix `s` for which `workdir/s` is a
      directory. */
  function SuffixSearch(dirs: set<Path>, workdir: Path, rel: string): (r: Option<Path>)
    decreases |rel|
  {
    if rel == [] then None
    else if Join(workdir, rel) in dirs then Some(Join(workdir, rel))
    else
      var n := SegmentLength(rel);
      if n == |rel| then None else SuffixSearch(dirs, workdir, rel[n + 1..])
  }

  /** The candidate starts of `rel` after its first separator (at `n`) are those of the rest,
      shifted. */
  lemma CandidateStartsOfRest(rel: string, n: nat, i: int)
    requires n < |rel| && rel[n] == '/' && '/' !in rel[..n]
    ensures IsCandidateStart(rel, i) && i != 0 <==> IsCandidateStart(rel[n + 1..], i - n - 1)
    ensures IsCandidateStart(rel, i) && i != 0 ==> rel[i..] == rel[n + 1..][i - n - 1..]
  {
    if 0 < i <= n {
      assert rel[i - 1] == rel[..n][i - 1];
    }
  }

  /** Without a separator, the whole remainder is the only candidate. */
  lemma SoleCandidate(rel: string, i: int)
    requires SegmentLength(rel) == |rel|
    ensures IsCandidateStart(rel, i) ==> i == 0
  {
    assert rel[..|rel|] == rel;
    if 0 < i <= |rel| {
      assert rel[i - 1] in rel;
    }
  }

  /** Some candidate suffix of `rel` is a directory under `workdir`. */
  ghost predicate SomeCandidateIsDir(dirs: set<Path>, workdir: Path, rel: string) {
    exists i :: IsCandidateStart(rel, i) && Join(workdir, rel[i..]) in dirs
  }

  /** `t` is `workdir` joined with the first candidate suffix of `rel` that is a directory. */
  ghost predicate IsFirstCandidateDir(dirs: set<Path>, workdir: Path, rel: string, t: Path) {
    exists i ::
      && IsCandidateStart(rel, i)
      && t == Join(workdir, rel[i..])
      && t in dirs
      && forall j :: IsCandidateStart(rel, j) && j < i ==> Join(workdir, rel[j..]) !in dirs
  }

  /** The search yields `workdir/s` for the first candidate suffix `s` whose location is a
      directory, and nothing when there is none. */
  lemma {:induction false} SuffixSearchFindsFirstDirectory(dirs: set<Path>, workdir: Path, rel: string)
    ensures SuffixSearch(dirs, workdir, rel).Some? <==> SomeCandidateIsDir(dirs, workdir, rel)
    ensures SuffixSearch(dirs, workdir, rel).Some? ==>
      IsFirstCandidateDir(dirs, workdir, rel, SuffixSearch(dirs, workdir, rel).value)
    decreases |rel|
  {
    if rel == [] {
    } else if Join(workdir, rel) in dirs {
      assert IsCandidateStart(rel, 0) && rel[0..] == rel;
    } else if SegmentLength(rel) == |rel| {
      forall i | IsCandidateStart(rel, i)
        ensures i == 0
      {
        SoleCandidate(rel, i);
      }
      assert rel[0..] == rel;
    } else {
      var n := SegmentLength(rel);
      var rest := rel[n + 1..];
      SuffixSearchFindsFirstDirectory(dirs, workdir, rest);
      assert rel[0..] == rel;
      forall i | IsCandidateStart(rel, i) && Join(workdir, rel[i..]) in dirs
        ensures IsCandidateStart(rest, i - n - 1) && Join(workdir, rest[i - n - 1..]) in dirs
      {
        CandidateStartsOfRest(rel, n, i);
      }
      forall j | IsCandidateStart(rest, j)
        ensures IsCandidateStart(rel, j + n + 1) && rel[j + n + 1..] == rest[j..]
      {
        CandidateStartsOfRest(rel, n, j + n + 1);
      }
      if SuffixSearch(dirs, workdir, rest).Some? {
        var t := SuffixSearch(dirs, workdir, rest).value;
        var i :| && IsCandidateStart(rest, i)
                 && t == Join(workdir, rest[i..])
                 && t in dirs
                 && forall j :: IsCandidateStart(rest, j) && j < i ==> Join(workdir, rest[j..]) !in dirs;
        forall j | IsCandidateStart(rel, j) && j < i + n + 1
          ensures Join(workdir, rel[j..]) !in dirs
        {
          CandidateStartsOfRest(rel, n, j);
        }
        assert IsCandidateStart(rel, i + n + 1) && rel[i + n + 1..] == rest[i..];
      }
    }
  }

  /** Joining onto the same directory keeps relative names apart. */
  lemma JoinIsInjective(workdir: Path, x: Path, y: Path)
    requires !IsAbsolute(x) && !IsAbsolute(y)
    ensures Join(workdir, x) == Join(workdir, y) ==> x == y
  {
    var pre := if workdir == [] || workdir[|workdir| - 1] == '/' then workdir else workdir + "/";
    assert Join(workdir, x) == pre + x && Join(workdir, y) == pre + y;
    assert (pre + x)[|pre|..] == x && (pre + y)[|pre|..] == y;
  }

  /** One failed step of the search moves on to the text after the first separator. */
  lemma SearchMovesOn(dirs: set<Path>, workdir: Path, first: string, rest: string)
    requires first != [] && '/' !in first
    requires Join(workdir, first + "/" + rest) !in dirs
    ensures SuffixSearch(dirs, workdir, first + "/" + rest) == SuffixSearch(dirs, workdir, rest)
  {
    SegmentLengthBeforeSep(first, rest);
    assert (first + "/" + rest)[|first| + 1..] == rest;
  }

  /** Paths with different first segments differ. */
  lemma DistinctFirstSegments(a: string, x: string, b: string, y: string)
    requires '/' !in a && '/' !in b && a != b
    ensures a + "/" + x != b + "/" + y
  {
    SegmentLengthBeforeSep(a, x);
    SegmentLengthBeforeSep(b, y);
    assert (a + "/" + x)[..|a|] == a && (b + "/" + y)[..|b|] == b;
  }

  /** The suffix search strips leading segments only: it never tries a prefix of the remainder,
      so a clone holding `a/b` is not found for the remainder `a/b/c`, while a clone holding
      `b/c` is. */
  lemma SuffixSearchDropsLeadingSegments(workdir: Path, a: string, b: string, c: string)
    requires a != [] && b != [] && c != [] && '/' !in a && '/' !in b && '/' !in c
    requires a != b
    ensures SuffixSearch({Join(workdir, a + "/" + b)}, workdir, a + "/" + (b + "/" + c)) == None
    ensures SuffixSearch({Join(workdir, b + "/" + c)}, workdir, a + "/" + (b + "/" + c))
         == Some(Join(workdir, b + "/" + c))
  {
    var ab, bc, abc := a + "/" + b, b + "/" + c, a + "/" + (b + "/" + c);
    DistinctFirstSegments(a, b, b, c);
    assert |abc| > |ab| && |abc| > |bc|;
    assert '/' in ab by { assert ab[|a|] == '/'; }
    JoinIsInjective(workdir, abc, ab);
    JoinIsInjective(workdir, bc, ab);
    JoinIsInjective(workdir, c, ab);
    JoinIsInjective(workdir, abc, bc);
    SearchMovesOn({Join(workdir, ab)}, workdir, a, bc);
    SearchMovesOn({Join(workdir, ab)}, workdir, b, c);
    SearchMovesOn({Join(workdir, bc)}, workdir, a, bc);
    assert c[..|c|] == c;
  }

  /** `os.path.join(clone_dir, os.path.relpath(repo.working_dir, os.path.abspath(clone_dir)))`;
      `relTo` stands for the `relpath` against the absolute clone directory. */
  function WorkdirOf(cloneDir: Path, relTo: Path -> Path, repo: Repo): Path {
    Join(cloneDir, relTo(repo.workingDir))
  }

  /** One iteration of the loop over `paths`. */
  function Classify(disk: Disk, mapping: map<string, Repo>, cloneDir: Path, relTo: Path -> Path,
                    p: Path): Route
  {
    if p !in disk.entries then Dropped
    else if AnyMatch(IgnorePaths, p) then Dropped
    else if AnyMatch(NoTranslate, p) then Copied
    else PackageRoute(disk, mapping, cloneDir, relTo, BreakdownByPackageName(p))
  }

  /** The rest of the iteration once the path is split into package name and remainder. */
  function PackageRoute(disk: Disk, mapping: map<string, Repo>, cloneDir: Path, relTo: Path -> Path,
                        parts: PackageParts): Route
  {
    if parts.name !in mapping then Copied
    else
      match SuffixSearch(disk.dirs, WorkdirOf(cloneDir, relTo, mapping[parts.name]), LstripSep(parts.relpath))
      case Some(t) => Translated(t)
      case None => Copied
  }

  /** A package is translated exactly when it has a clone in which some candidate suffix of the
      stripped remainder is a directory; the target is the first such directory. */
  lemma PackageRouteTranslates(disk: Disk, mapping: map<string, Repo>, cloneDir: Path, relTo: Path -> Path,
                               parts: PackageParts)
    ensures PackageRoute(disk, mapping, cloneDir, relTo, parts) != Dropped
    ensures PackageRoute(disk, mapping, cloneDir, relTo, parts).Translated? <==>
      && parts.name in mapping
      && SomeCandidateIsDir(disk.dirs, WorkdirOf(cloneDir, relTo, mapping[parts.name]), LstripSep(parts.relpath))
    ensures PackageRoute(disk, mapping, cloneDir, relTo, parts).Translated? ==>
      IsFirstCandidateDir(disk.dirs, WorkdirOf(cloneDir, relTo, mapping[parts.name]), LstripSep(parts.relpath),
                          PackageRoute(disk, mapping, cloneDir, relTo, parts).target)
  {
    if parts.name in mapping {
      SuffixSearchFindsFirstDirectory(disk.dirs, WorkdirOf(cloneDir, relTo, mapping[parts.name]), LstripSep(parts.relpath));
    }
  }

  /** A path is dropped exactly when it is missing or matches `ignore_paths`, which is checked
      before `no_translate`. */
  lemma ClassifyDrops(disk: Disk, mapping: map<string, Repo>, cloneDir: Path, relTo: Path -> Path, p: Path)
    ensures Classify(disk, mapping, cloneDir, relTo, p) == Dropped <==>
      p !in disk.entries || AnyMatch(IgnorePaths, p)
  {
    PackageRouteTranslates(disk, mapping, cloneDir, relTo, BreakdownByPackageName(p));
  }

  /** A kept path matching `no_translate`, or whose package has no clone, is copied. */
  lemma ClassifyCopies(disk: Disk, mapping: map<string, Repo>, cloneDir: Path, relTo: Path -> Path, p: Path)
    requires p in disk.entries && !AnyMatch(IgnorePaths, p)
    ensures AnyMatch(NoTranslate, p) ==> Classify(disk, mapping, cloneDir, relTo, p) == Copied
    ensures BreakdownByPackageName(p).name !in mapping ==> Classify(disk, mapping, cloneDir, relTo, p) == Copied
  {
  }

  /** A path is translated exactly when it is kept, not excluded, its package has a clone and
      some candidate suffix of its stripped remainder is a directory there; the target is the
      first such directory. */
  lemma ClassifyTranslates(disk: Disk, mapping: map<string, Repo>, cloneDir: Path, relTo: Path -> Path, p: Path)
    ensures Classify(disk, mapping, cloneDir, relTo, p).Translated? <==>
      var parts := BreakdownByPackageName(p);
      && p in disk.entries && !AnyMatch(IgnorePaths, p) && !AnyMatch(NoTranslate, p)
      && parts.name in mapping
      && SomeCandidateIsDir(disk.dirs, WorkdirOf(cloneDir, relTo, mapping[parts.name]), LstripSep(parts.relpath))
    ensures Classify(disk, mapping, cloneDir, relTo, p).Translated? ==>
      var parts := BreakdownByPackageName(p);
      IsFirstCandidateDir(disk.dirs, WorkdirOf(cloneDir, relTo, mapping[parts.name]), LstripSep(parts.relpath),
                          Classify(disk, mapping, cloneDir, relTo, p).target)
  {
    PackageRouteTranslates(disk, mapping, cloneDir, relTo, BreakdownByPackageName(p));
  }

  /** An empty remainder leaves nothing to search: the package is copied. */
  lemma EmptyRemainderIsCopied(disk: Disk, mapping: map<string, Repo>, cloneDir: Path, relTo: Path -> Path,
                               parts: PackageParts)
    requires LstripSep(parts.relpath) == []
    ensures PackageRoute(disk, mapping, cloneDir, relTo, parts) == Copied
  {
  }

  /** A path outside every release root has no remainder to search, so it is never translated,
      even when its basename names a mapped package. */
  lemma NonPackagePathIsNotTranslated(disk: Disk, mapping: map<string, Repo>, cloneDir: Path,
                                      relTo: Path -> Path, p: Path)
    requires forall k :: 0 <= k < |RezPaths| ==> !Fits(RezPaths[k], p)
    ensures !Classify(disk, mapping, cloneDir, relTo, p).Translated?
    ensures p in disk.entries && !AnyMatch(IgnorePaths, p) ==> Classify(disk, mapping, cloneDir, relTo, p) == Copied
  {
    var parts := BreakdownByPackageName(p);
    assert parts.relpath == [];
    EmptyRemainderIsCopied(disk, mapping, cloneDir, relTo, parts);
  }

  /** `ignore_paths` is a prefix test on its single stem. */
  lemma IgnorePathsIsPrefixTest(p: Path)
    ensures AnyMatch(IgnorePaths, p) <==> DeveloperArea <= p
  {
    StemsAreLiteral();
    assert IgnorePaths[0] == DeveloperArea + "*";
    LiteralStarIsPrefix(DeveloperArea, p);
  }

  /** No path matches both lists, so the precedence of `ignore_paths` over `no_translate` never
      decides an outcome with the configured patterns. */
  lemma IgnoreAndNoTranslateAreDisjoint(p: Path)
    ensures !(AnyMatch(IgnorePaths, p) && AnyMatch(NoTranslate, p))
  {
    IgnorePathsIsPrefixTest(p);
    NoTranslateIsPrefixTest(p);
    DivergingPrefixes(DeveloperArea, ExternalArea, p, |PackagesArea|);
    DivergingPrefixes(DeveloperArea, ToolboxArea, p, |RndArea|);
    DivergingPrefixes(DeveloperArea, ProfilePackages, p, |Volumes|);
    DivergingPrefixes(DeveloperArea, "/opt/", p, 1);
  }

  /** Paths under the release root are not ignored. */
  lemma ReleasePathIsNotIgnored(p: Path)
    requires RezPaths[0] <= p
    ensures !AnyMatch(IgnorePaths, p)
  {
    IgnorePathsIsPrefixTest(p);
    DivergingPrefixes(ReleaseArea, DeveloperArea, p, |PackagesArea|);
  }

  /** Paths under the release root are not excluded from translation. */
  lemma ReleasePathIsNotExcluded(p: Path)
    requires RezPaths[0] <= p
    ensures !AnyMatch(NoTranslate, p)
  {
    NoTranslateIsPrefixTest(p);
    DivergingPrefixes(ReleaseArea, ExternalArea, p, |PackagesArea|);
    DivergingPrefixes(ReleaseArea, ToolboxArea, p, |RndArea|);
    DivergingPrefixes(ReleaseArea, ProfilePackages, p, |Volumes|);
    DivergingPrefixes(ReleaseArea, "/opt/", p, 1);
  }

  /** The package name and the stripped remainder of `<root><name>/<more>`. */
  lemma ReleaseRemainder(name: string, more: string)
    requires name != [] && '/' !in name
    requires more != [] && more[0] != '/' && '\n' !in more
    ensures var parts := BreakdownByPackageName(RezPaths[0] + name + "/" + more);
            parts.name == name && LstripSep(parts.relpath) == more
  {
    assert RezPaths[0] + name + "/" + more == RezPaths[0] + "" + name + "/" + more;
    BreakdownOfPackagePath("", name, more);
    assert UpToNewline(more) == more;
  }

  /** A released package version `<root><name>/<version>/<sub>` is translated to `<sub>` inside
      the clone when the clone has that directory but no `<version>/<sub>`. */
  lemma ReleaseTranslatesToCloneDirectory(disk: Disk, mapping: map<string, Repo>, cloneDir: Path,
                                          relTo: Path -> Path, name: string, version: string, sub: string)
    requires name != [] && '/' !in name
    requires version != [] && '/' !in version && '\n' !in version
    requires '/' !in sub && '\n' !in sub && sub != []
    requires RezPaths[0] + name + "/" + (version + "/" + sub) in disk.entries
    requires name in mapping
    requires Join(WorkdirOf(cloneDir, relTo, mapping[name]), version + "/" + sub) !in disk.dirs
    requires Join(WorkdirOf(cloneDir, relTo, mapping[name]), sub) in disk.dirs
    ensures Classify(disk, mapping, cloneDir, relTo, RezPaths[0] + name + "/" + (version + "/" + sub))
         == Translated(Join(WorkdirOf(cloneDir, relTo, mapping[name]), sub))
  {
    var more := version + "/" + sub;
    var p := RezPaths[0] + name + "/" + more;
    var workdir := WorkdirOf(cloneDir, relTo, mapping[name]);
    ReleasePathIsNotIgnored(p);
    ReleasePathIsNotExcluded(p);
    ReleaseRemainder(name, more);
    SearchMovesOn(disk.dirs, workdir, version, sub);
    assert SuffixSearch(disk.dirs, workdir, sub) == Some(Join(workdir, sub));
  }

  /** On a run that finds no clones, the directories of the fetched clones are searched: a
      released version is translated into a clone that only `clone_all_repos` wrote. */
  lemma FetchedCloneIsSearched(mid: Disk, tree: Disk, mapping: map<string, Repo>, cloneDir: Path,
                               relTo: Path -> Path, name: string, version: string, sub: string)
    requires name != [] && '/' !in name
    requires version != [] && '/' !in version && '\n' !in version
    requires '/' !in sub && '\n' !in sub && sub != []
    requires RezPaths[0] + name + "/" + (version + "/" + sub) in mid.entries
    requires name in mapping
    requires Join(WorkdirOf(cloneDir, relTo, mapping[name]), version + "/" + sub) !in mid.dirs + tree.dirs
    requires Join(WorkdirOf(cloneDir, relTo, mapping[name]), sub) in tree.dirs
    ensures Classify(Merge(mid, tree), mapping, cloneDir, relTo, RezPaths[0] + name + "/" + (version + "/" + sub))
         == Translated(Join(WorkdirOf(cloneDir, relTo, mapping[name]), sub))
  {
    ReleaseTranslatesToCloneDirectory(Merge(mid, tree), mapping, cloneDir, relTo, name, version, sub);
  }

  /** The classification the loop applies, as a function of the path. */
  function RouteOf(disk: Disk, mapping: map<string, Repo>, cloneDir: Path, relTo: Path -> Path): Path -> Route {
    p => Classify(disk, mapping, cloneDir, relTo, p)
  }

  /** `translated` after a loop that routes each of `paths` with `route`. */
  function TranslatedOf(route: Path -> Route, paths: seq<Path>): seq<Path> {
    if paths == [] then []
    else
      var init := TranslatedOf(route, paths[..|paths| - 1]);
      match route(paths[|paths| - 1])
      case Translated(t) => init + [t]
      case _ => init
  }

  /** `copied` after a loop that routes each of `paths` with `route`. */
  function CopiedOf(route: Path -> Route, paths: seq<Path>): seq<Path> {
    if paths == [] then []
    else
      var init := CopiedOf(route, paths[..|paths| - 1]);
      if route(paths[|paths| - 1]) == Copied then init + [paths[|paths| - 1]] else init
  }

  /** One more input appends its own output, if any, to the lists. */
  lemma RouteStep(route: Path -> Route, paths: seq<Path>, i: nat)
    requires i < |paths|
    ensures TranslatedOf(route, paths[..i + 1])
         == TranslatedOf(route, paths[..i]) + (if route(paths[i]).Translated? then [route(paths[i]).target] else [])
    ensures CopiedOf(route, paths[..i + 1])
         == CopiedOf(route, paths[..i]) + (if route(paths[i]) == Copied then [paths[i]] else [])
  {
    assert paths[..i + 1][..i] == paths[..i];
  }

  /** Each input contributes at most one output, and exactly one unless it is dropped. */
  lemma {:induction false} OneOutputPerInput(route: Path -> Route, paths: seq<Path>)
    ensures |TranslatedOf(route, paths)| + |CopiedOf(route, paths)| <= |paths|
    ensures (forall i :: 0 <= i < |paths| ==> route(paths[i]) != Dropped) ==>
      |TranslatedOf(route, paths)| + |CopiedOf(route, paths)| == |paths|
  {
    if paths != [] {
      var init := paths[..|paths| - 1];
      OneOutputPerInput(route, init);
      if forall i :: 0 <= i < |paths| ==> route(paths[i]) != Dropped {
        assert forall i :: 0 <= i < |init| ==> init[i] == paths[i];
      }
    }
  }

  /** `copied` holds exactly the inputs routed there. */
  lemma {:induction false} CopiedAreRoutedInputs(route: Path -> Route, paths: seq<Path>)
    ensures forall x :: x in CopiedOf(route, paths) <==> x in paths && route(x) == Copied
  {
    if paths != [] {
      var init := paths[..|paths| - 1];
      CopiedAreRoutedInputs(route, init);
      assert paths == init + [paths[|paths| - 1]];
    }
  }

  /** `translated` holds exactly the targets the inputs are routed to. */
  lemma {:induction false} TranslatedAreRoutedTargets(route: Path -> Route, paths: seq<Path>)
    ensures forall t :: t in TranslatedOf(route, paths) <==>
      exists i :: 0 <= i < |paths| && route(paths[i]) == Translated(t)
  {
    if paths != [] {
      var init := paths[..|paths| - 1];
      var last := paths[|paths| - 1];
      TranslatedAreRoutedTargets(route, init);
      forall t
        ensures t in TranslatedOf(route, paths) <==> exists i :: 0 <= i < |paths| && route(paths[i]) == Translated(t)
      {
        if t in TranslatedOf(route, paths) {
          if t in TranslatedOf(route, init) {
            var i :| 0 <= i < |init| && route(init[i]) == Translated(t);
            assert paths[i] == init[i];
          } else {
            assert route(paths[|paths| - 1]) == Translated(t);
          }
        }
        if exists i :: 0 <= i < |paths| && route(paths[i]) == Translated(t) {
          var i :| 0 <= i < |paths| && route(paths[i]) == Translated(t);
          if i < |init| {
            assert init[i] == paths[i];
          }
        }
      }
    }
  }

  /** What the two lists of `translate_to_repo_paths` contain: `copied` only existing,
      non-ignored inputs, `translated` only directories; and when every input exists and none is
      ignored, every input is accounted for once. */
  lemma TranslationOutputs(disk: Disk, mapping: map<string, Repo>, cloneDir: Path, relTo: Path -> Path,
                           paths: seq<Path>)
    ensures forall x :: x in CopiedOf(RouteOf(disk, mapping, cloneDir, relTo), paths) ==>
      x in paths && x in disk.entries && !AnyMatch(IgnorePaths, x)
    ensures forall t :: t in TranslatedOf(RouteOf(disk, mapping, cloneDir, relTo), paths) ==> t in disk.dirs
    ensures (forall i :: 0 <= i < |paths| ==> paths[i] in disk.entries && !AnyMatch(IgnorePaths, paths[i])) ==>
      |TranslatedOf(RouteOf(disk, mapping, cloneDir, relTo), paths)|
      + |CopiedOf(RouteOf(disk, mapping, cloneDir, relTo), paths)| == |paths|
  {
    var route := RouteOf(disk, mapping, cloneDir, relTo);
    CopiedAreRoutedInputs(route, paths);
    TranslatedAreRoutedTargets(route, paths);
    OneOutputPerInput(route, paths);
    forall x | x in CopiedOf(route, paths)
      ensures x in disk.entries && !AnyMatch(IgnorePaths, x)
    {
      ClassifyDrops(disk, mapping, cloneDir, relTo, x);
    }
    forall t | t in TranslatedOf(route, paths)
      ensures t in disk.dirs
    {
      var i :| 0 <= i < |paths| && route(paths[i]) == Translated(t);
      ClassifyTranslates(disk, mapping, cloneDir, relTo, paths[i]);
    }
    forall i | 0 <= i < |paths| && paths[i] in disk.entries && !AnyMatch(IgnorePaths, paths[i])
      ensures route(paths[i]) != Dropped
    {
      ClassifyDrops(disk, mapping, cloneDir, relTo, paths[i]);
    }
  }

  /** The inner `while relpath` loop with its `found` flag. */
  method SearchClone(fs: FileSystem, workdir: Path, relpath: string) returns (found: bool, fullpath: Path)
    ensures found <==> SuffixSearch(fs.dirs, workdir, relpath).Some?
    ensures found ==> SuffixSearch(fs.dirs, workdir, relpath) == Some(fullpath)
  {
    found := false;
    fullpath := [];
    var rel := relpath;
    while rel != []
      invariant SuffixSearch(fs.dirs, workdir, rel) == SuffixSearch(fs.dirs, workdir, relpath)
      invariant !found
      decreases |rel|
    {
      fullpath := Join(workdir, rel);
      if fullpath in fs.dirs {
        found := true;
        break;
      }
      var splits := SplitOnce(rel);
      if |splits| <= 1 {
        break;
      }
      rel := splits[|splits| - 1];
    }
  }

  /** `translate_to_repo_paths(paths, clone_dir)`. `clones` is what `get_clones` finds under
      `clone_dir`. When it is empty, `clone_all_repos` runs: it yields the clones `fetched` and
      writes their files, `fetchedTree`, before the loop looks for directories. */
  method TranslateToRepoPaths(fs: FileSystem, paths: seq<Path>, cloneDir: Path, clones: seq<Repo>,
                              fetched: seq<Repo>, fetchedTree: Disk, relTo: Path -> Path)
    returns (translated: seq<Path>, copied: seq<Path>)
    requires fs.Valid() && Consistent(fetchedTree)
    modifies fs
    ensures fs.Valid()
    ensures fs.State() == if clones != [] then EnsureDirSpec(old(fs.State()), cloneDir, false)
                          else Merge(EnsureDirSpec(old(fs.State()), cloneDir, false), fetchedTree)
    ensures var mapping := PackageRepoMapping(GetPackageName, if clones != [] then clones else fetched);
            && translated == TranslatedOf(RouteOf(fs.State(), mapping, cloneDir, relTo), paths)
            && copied == CopiedOf(RouteOf(fs.State(), mapping, cloneDir, relTo), paths)
  {
    translated, copied := [], [];
    if !fs.Exists(cloneDir) {
      fs.MakeDirs(cloneDir);
    }
    if clones == [] {
      fs.Graft(fetchedTree);
    }
    var mapping := GetPackageRepoMapping(if clones != [] then clones else fetched);
    var disk := fs.State();
    var route := RouteOf(disk, mapping, cloneDir, relTo);
    for i := 0 to |paths|
      invariant fs.State() == disk
      invariant translated == TranslatedOf(route, paths[..i])
      invariant copied == CopiedOf(route, paths[..i])
    {
      var path := paths[i];
      RouteStep(route, paths, i);
      assert route(path) == Classify(disk, mapping, cloneDir, relTo, path);
      if !fs.Exists(path) {
        assert route(path) == Dropped;
        continue;
      }
      if AnyMatch(IgnorePaths, path) {
        assert route(path) == Dropped;
        continue;
      }
      if AnyMatch(NoTranslate, path) {
        assert route(path) == Copied;
        copied := copied + [path];
        continue;
      }
      var package := BreakdownByPackageName(path);
      if package.name !in mapping {
        assert route(path) == Copied;
        copied := copied + [path];
        continue;
      }
      var repo := mapping[package.name];
      var workdirRel := Join(cloneDir, relTo(repo.workingDir));
      var found, fullpath := SearchClone(fs, workdirRel, LstripSep(package.relpath));
      if found {
        assert route(path) == Translated(fullpath);
        translated := translated + [fullpath];
      } else {
        assert route(path) == Copied;
        copied := copied + [path];
      }
    }
    assert paths[..|paths|] == paths;
  }
}
