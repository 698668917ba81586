/**
 * The current version of the tool (`python/confgen/confgen.py`): its configuration constants,
 * the split of a package path into root, package name and remainder, the mirror target name of a
 * path, and `localize_paths` instantiated with these.
 */
module Confgen {
  import opened Wrappers
  import opened PathText
  import opened Glob
  import opened Sites
  import opened RootPattern
  import opened Fingerprint
  import opened FileSystem
  import opened Mirror

  /** Default mirror and clone directory. */
  const IncludeDir: Path := "./includes"

  /** Package roots: one release area; the external area and the toolbox are commented out. */
  const RezPaths: seq<string> := [ReleaseArea]

  /** Paths that are reported as they are instead of being mirrored or translated. */
  const NoTranslate: seq<string> := [ExternalArea + "*", ToolboxArea + "*", ProfilePackages + "*", "/opt/*"]

  /** Paths that repository translation drops altogether: one developer's area. */
  const IgnorePaths: seq<string> := [DeveloperArea + "*"]

  /** `(prefix, package name, remainder)` as `breakdown_by_package_name` returns it. */
  datatype PackageParts = PackageParts(prefix: string, name: string, relpath: string)

  /** `breakdown_by_package_name(path)`: the groups of the package-path pattern over `RezPaths`,
      or `("", basename(path), "")` when it does not match. */
  function BreakdownByPackageName(path: Path): (r: PackageParts)
    ensures '/' !in r.name
    ensures r.prefix != [] <==> SomeRootFits(RezPaths, path)
    ensures r.prefix != [] ==>
      && r.prefix <= path
      && Tail(path[|r.prefix|..]) == Some((r.name, r.relpath))
      && r.name != [] && r.relpath != [] && r.relpath[0] == '/'
      && |r.prefix| == |RezPaths[0]|
    ensures r.prefix == [] ==> r.relpath == [] && r.name == Basename(path)
  {
    match Match(RezPaths, path)
    case Some(g) => assert |g.root| == |RezPaths[0]|; PackageParts(g.root, g.name, g.rest)
    case None => PackageParts("", Basename(path), "")
  }

  /** A path under the release root splits into the root, the segment after it and the rest. */
  lemma BreakdownOfPackagePath(sep: string, name: string, more: string)
    requires sep == "" || sep == "/"
    requires name != [] && '/' !in name
    ensures BreakdownByPackageName(RezPaths[0] + sep + name + "/" + more)
         == PackageParts(RezPaths[0], name, "/" + UpToNewline(more))
  {
    MatchOfShape(RezPaths, 0, RezPaths[0] + sep + name + "/" + more, sep, name, more);
  }

  /** A path whose package segment is its last segment does not match: it falls back to the
      basename, which is that segment, with an empty root and remainder. */
  lemma LastSegmentFallsBack(sep: string, name: string)
    requires sep == "" || sep == "/"
    requires '/' !in name
    ensures BreakdownByPackageName(RezPaths[0] + sep + name) == PackageParts("", name, "")
  {
    LastSegmentDoesNotFit(RezPaths[0], sep, name);
    BasenameAfterSeparator(RezPaths[0] + sep, name);
  }

  /** A path whose start the release root fits splits at the segment after the fitted text. */
  lemma BreakdownOfFit(path: Path, sep: string, name: string, more: string)
    requires RootFits(RezPaths[0], path)
    requires sep == "" || sep == "/"
    requires name != [] && '/' !in name
    requires path[|RezPaths[0]|..] == sep + name + "/" + more
    ensures BreakdownByPackageName(path) == PackageParts(path[..|RezPaths[0]|], name, "/" + UpToNewline(more))
  {
    MatchOfFit(RezPaths, 0, path, sep, name, more);
  }

  /** `re.match` reads the `.` of `oa_pipeline.v2` as a wildcard: a path whose root has any other
      character there (except a newline) still splits at the package segment, and the reported
      root is the path's own text. */
  lemma DotInRootIsAWildcard(c: char, name: string, more: string)
    requires c != '\n'
    requires name != [] && '/' !in name
    ensures var root := RndArea + "oa_pipeline" + [c] + "v2/packages/int/";
            BreakdownByPackageName(root + name + "/" + more) == PackageParts(root, name, "/" + UpToNewline(more))
  {
    var before, after := RndArea + "oa_pipeline", "v2/packages/int/";
    var root := before + [c] + after;
    var path := root + name + "/" + more;
    ReleaseAreaHasDot();
    assert path == before + [c] + after + (name + "/" + more);
    DotFitsAnyCharacter(before, after, c, name + "/" + more);
    assert |root| == |RezPaths[0]|;
    assert path[|RezPaths[0]|..] == "" + name + "/" + more;
    assert path[..|RezPaths[0]|] == root;
    BreakdownOfFit(path, "", name, more);
  }

  /** `get_target_name(string)`: the package name and the first six characters of the SHA-256 hex
      digest of the latin-1 encoding, or `None` where the encoding raises. */
  function GetTargetName(digest: Digest, s: Path): (r: Option<(string, string)>)
    ensures r.Some? <==> IsLatin1(s)
    ensures r.Some? ==> r.value.0 == BreakdownByPackageName(s).name
    ensures r.Some? ==> |r.value.1| == 6 && IsHex(r.value.1) && Some(r.value.1) == ShortHash(digest, s)
  {
    var name := BreakdownByPackageName(s).name;
    match ShortHash(digest, s)
    case None => None
    case Some(h) => Some((name, h))
  }

  /** The mirror walk of `localize_paths(target_dir, paths, do_symlinks)` in this version. */
  function LocalizeJob(digest: Digest, targetDir: Path, doSymlinks: bool, outcome: nat -> Outcome): Job {
    Job(targetDir, NoTranslate, p => GetTargetName(digest, p), doSymlinks, outcome)
  }

  /** Package names never contain a separator and fingerprints are hexadecimal, so every
      location, as a string, starts with the target directory (a `..` name is not resolved). */
  lemma TargetNamesAreRelative(digest: Digest, targetDir: Path, doSymlinks: bool, outcome: nat -> Outcome)
    ensures RelativeNames(LocalizeJob(digest, targetDir, doSymlinks, outcome))
  {
    var job := LocalizeJob(digest, targetDir, doSymlinks, outcome);
    forall p | job.targetName(p).Some?
      ensures !IsAbsolute(job.targetName(p).value.0) && !IsAbsolute(job.targetName(p).value.1)
    {
      var t := GetTargetName(digest, p).value;
      assert IsLowerHex(t.1[0]);
    }
  }

  /** A path is excluded from mirroring exactly when it starts with one of the four stems. */
  lemma NoTranslateIsPrefixTest(p: Path)
    ensures AnyMatch(NoTranslate, p) <==>
      ExternalArea <= p || ToolboxArea <= p || ProfilePackages <= p || "/opt/" <= p
  {
    StemsAreLiteral();
    assert NoTranslate[0] == ExternalArea + "*" && NoTranslate[1] == ToolboxArea + "*";
    assert NoTranslate[2] == ProfilePackages + "*" && NoTranslate[3] == "/opt/" + "*";
    LiteralStarIsPrefix(ExternalArea, p);
    LiteralStarIsPrefix(ToolboxArea, p);
    LiteralStarIsPrefix(ProfilePackages, p);
    LiteralStarIsPrefix("/opt/", p);
  }

  /** `localize_paths(target_dir, paths, do_symlinks)`. */
  method LocalizePaths(fs: FileSystem, digest: Digest, targetDir: Path, paths: seq<Path>, doSymlinks: bool,
                       outcome: nat -> Outcome) returns (r: Localized)
    requires fs.Valid()
    requires targetDir in fs.entries ==> targetDir in fs.dirs
    modifies fs
    ensures fs.Valid()
    ensures var start := EnsureDirSpec(old(fs.State()), targetDir, true);
            var w := Run(LocalizeJob(digest, targetDir, doSymlinks, outcome), start, paths);
            fs.State() == w.disk && r == Report(paths, w.log)
  {
    r := Mirror.LocalizePaths(fs, LocalizeJob(digest, targetDir, doSymlinks, outcome), paths);
  }

  /** The result of `localize_paths` from the filesystem `before`. */
  function Localize(digest: Digest, targetDir: Path, doSymlinks: bool, outcome: nat -> Outcome,
                    before: Disk, paths: seq<Path>): Localized
  {
    var job := LocalizeJob(digest, targetDir, doSymlinks, outcome);
    Report(paths, Run(job, EnsureDirSpec(before, targetDir, true), paths).log)
  }

  /** `ignored` lists, in input order, the inputs that existed and start with a `no_translate`
      stem (inputs outside the target directory). */
  lemma IgnoredAreNoTranslateInputs(digest: Digest, targetDir: Path, doSymlinks: bool,
                                    outcome: nat -> Outcome, before: Disk, paths: seq<Path>)
    requires forall i :: 0 <= i < |paths| ==> !(targetDir <= paths[i])
    requires Localize(digest, targetDir, doSymlinks, outcome, before, paths).Localized?
    ensures Localize(digest, targetDir, doSymlinks, outcome, before, paths).ignored
         == ExistingExcluded(before.entries, NoTranslate, paths)
  {
    TargetNamesAreRelative(digest, targetDir, doSymlinks, outcome);
    IgnoredInInputOrder(LocalizeJob(digest, targetDir, doSymlinks, outcome), before, paths);
  }

  /** When the call returns, the input at `i` (outside the target directory) is reported in
      neither list exactly when it did not exist before the call or the `symlink`/`copytree`
      of its fresh location raised. */
  lemma InputsReportedNowhere(digest: Digest, targetDir: Path, doSymlinks: bool, outcome: nat -> Outcome,
                              before: Disk, paths: seq<Path>, i: nat)
    requires i < |paths| && !(targetDir <= paths[i])
    requires Localize(digest, targetDir, doSymlinks, outcome, before, paths).Localized?
    ensures var job := LocalizeJob(digest, targetDir, doSymlinks, outcome);
            var start := EnsureDirSpec(before, targetDir, true);
            var log := Run(job, start, paths).log;
            !log[i].Mirrored? && !log[i].Excluded? <==>
              paths[i] !in before.entries || PopulationFails(job, Run(job, start, paths[..i]).disk, i, paths[i])
  {
    TargetNamesAreRelative(digest, targetDir, doSymlinks, outcome);
    UnreportedOutsideTarget(LocalizeJob(digest, targetDir, doSymlinks, outcome), before, paths, i);
  }

  /** Every reported target is `target_dir/<package name>/<fingerprint>` of an input that existed
      before the call and is not excluded. */
  lemma TargetsAreMirrorLocations(digest: Digest, targetDir: Path, doSymlinks: bool,
                                  outcome: nat -> Outcome, before: Disk, paths: seq<Path>, t: Path)
    requires forall i :: 0 <= i < |paths| ==> !(targetDir <= paths[i])
    requires Localize(digest, targetDir, doSymlinks, outcome, before, paths).Localized?
    requires t in Localize(digest, targetDir, doSymlinks, outcome, before, paths).targets
    ensures exists i ::
      && 0 <= i < |paths| && paths[i] in before.entries && !AnyMatch(NoTranslate, paths[i])
      && ShortHash(digest, paths[i]).Some?
      && t == Join(Join(targetDir, BreakdownByPackageName(paths[i]).name), ShortHash(digest, paths[i]).value)
  {
    var job := LocalizeJob(digest, targetDir, doSymlinks, outcome);
    var start := EnsureDirSpec(before, targetDir, true);
    TargetNamesAreRelative(digest, targetDir, doSymlinks, outcome);
    TargetsAreLocations(job, start, paths, t);
    var i :| 0 <= i < |paths| && LocationOf(job, paths[i]) == Some(t)
      && paths[i] in Run(job, start, paths).disk.entries && !AnyMatch(job.excludes, paths[i]);
    RunOnlyTouchesTarget(job, start, paths);
    if Within(paths[i], targetDir) {
      WithinIsPrefix(paths[i], targetDir);
    }
  }

  /** The call raises exactly for an input that existed, is not excluded and cannot be encoded
      as latin-1, and it is the first such input. */
  lemma EncodeErrorIsFirstNonLatin1(digest: Digest, targetDir: Path, doSymlinks: bool,
                                    outcome: nat -> Outcome, before: Disk, paths: seq<Path>)
    requires Localize(digest, targetDir, doSymlinks, outcome, before, paths).EncodeError?
    ensures var job := LocalizeJob(digest, targetDir, doSymlinks, outcome);
            var log := Run(job, EnsureDirSpec(before, targetDir, true), paths).log;
            var k := RaisedAt(log).value;
            && paths[k] == Localize(digest, targetDir, doSymlinks, outcome, before, paths).path
            && !IsLatin1(paths[k])
            && forall j :: 0 <= j < k ==> !log[j].Raised?
  {
    var job := LocalizeJob(digest, targetDir, doSymlinks, outcome);
    var start := EnsureDirSpec(before, targetDir, true);
    var k := RaisedAt(Run(job, start, paths).log).value;
    VerdictFacts(job, start, paths, k);
  }
}
