/**
 * The older single-file version of the tool: three package roots, one list of ignored patterns
 * that plays the part of `no_translate`, and a package-name extractor that keeps only the name.
 */
module Legacy {
  import opened Wrappers
  import opened PathText
  import opened Glob
  import opened Sites
  import opened RootPattern
  import opened Fingerprint
  import opened FileSystem
  import opened Mirror

  /** Package roots, in the order the alternation tries them. */
  const RezPaths: seq<string> := [ReleaseArea, ExternalArea, ToolboxArea + "system"]

  /** Paths that are reported as they are instead of being mirrored. */
  const IgnorePaths: seq<string> := [
    ExternalArea + "*",
    ToolboxArea + "*",
    ProfilePackages + "*",
    "/opt/*",
    DeveloperArea + "*"
  ]

  /** `extract_package_name(path)`: the segment after the first root that fits, or the basename
      when none does. */
  function ExtractPackageName(path: Path): (r: string)
    ensures '/' !in r
    ensures !SomeRootFits(RezPaths, path) ==> r == Basename(path)
    ensures SomeRootFits(RezPaths, path) ==>
      exists k :: IsFirstFit(RezPaths, path, k) && NameAfter(path, |RezPaths[k]|) == r
  {
    match Match(RezPaths, path)
    case Some(g) => g.name
    case None => Basename(path)
  }

  /** The package name the pattern reads after the first `n` characters of `path`. */
  function NameAfter(path: Path, n: nat): string
    requires n <= |path|
  {
    match Tail(path[n..])
    case Some(t) => t.0
    case None => ""
  }

  /** A path under the internal release root names the segment after it. */
  lemma ReleasePackageName(sep: string, name: string, more: string)
    requires sep == "" || sep == "/"
    requires name != [] && '/' !in name
    ensures ExtractPackageName(RezPaths[0] + sep + name + "/" + more) == name
  {
    MatchOfShape(RezPaths, 0, RezPaths[0] + sep + name + "/" + more, sep, name, more);
  }

  /** The internal root does not fit where the external one does: they differ at `int`/`ext`. */
  lemma InternalRootSkipsExternal(path: Path)
    requires RezPaths[1] <= path
    ensures !Fits(RezPaths[0], path)
  {
    var k := |PackagesArea|;
    assert RezPaths[0][k] == 'i' && RezPaths[1][k] == 'e';
    assert path[k] == RezPaths[1][k];
    assert !CharFits(RezPaths[0][k], path[k]);
  }

  /** A path under the external release root names the segment after it. */
  lemma ExternalPackageName(sep: string, name: string, more: string)
    requires sep == "" || sep == "/"
    requires name != [] && '/' !in name
    ensures ExtractPackageName(RezPaths[1] + sep + name + "/" + more) == name
  {
    var path := RezPaths[1] + sep + name + "/" + more;
    assert forall j :: 0 <= j < 1 ==> !Fits(RezPaths[j], path) by {
      InternalRootSkipsExternal(path);
    }
    MatchOfShape(RezPaths, 1, path, sep, name, more);
  }

  /** The release roots do not fit where the toolbox root does. */
  lemma ReleaseRootsSkipToolbox(path: Path)
    requires RezPaths[2] <= path
    ensures !Fits(RezPaths[0], path) && !Fits(RezPaths[1], path)
  {
    DivergingPrefixes(RezPaths[0], RezPaths[2], path, |RndArea|);
    DivergingPrefixes(RezPaths[1], RezPaths[2], path, |RndArea|);
  }

  /** Roots are raw text prefixes, not whole segments: after `/Volumes/rnd/toolbox/system` the
      rest of a segment (`d` in `systemd`) is taken for the package name. */
  lemma ToolboxRootIsARawPrefix(name: string, more: string)
    requires name != [] && '/' !in name
    ensures ExtractPackageName(RezPaths[2] + name + "/" + more) == name
  {
    var path := RezPaths[2] + name + "/" + more;
    assert path == RezPaths[2] + "" + name + "/" + more;
    ReleaseRootsSkipToolbox(path);
    MatchOfShape(RezPaths, 2, path, "", name, more);
  }

  /** `/Volumes/rnd/toolbox/systemd/x` is taken for the package `d`. */
  lemma SystemdIsPackageD()
    ensures ExtractPackageName(ToolboxArea + "systemd/x") == "d"
  {
    assert "systemd/x" == "system" + "d" + "/" + "x";
    assert ToolboxArea + "systemd/x" == RezPaths[2] + "d" + "/" + "x";
    ToolboxRootIsARawPrefix("d", "x");
  }

  /** `get_target_name(string)` of this version. */
  function GetTargetName(digest: Digest, s: Path): (r: Option<(string, string)>)
    ensures r.Some? <==> IsLatin1(s)
    ensures r.Some? ==> r.value.0 == ExtractPackageName(s)
    ensures r.Some? ==> |r.value.1| == 6 && IsHex(r.value.1) && Some(r.value.1) == ShortHash(digest, s)
  {
    match ShortHash(digest, s)
    case None => None
    case Some(h) => Some((ExtractPackageName(s), h))
  }

  /** The mirror walk of `localize_paths(target_dir, paths, do_symlinks)` in this version. */
  function LocalizeJob(digest: Digest, targetDir: Path, doSymlinks: bool, outcome: nat -> Outcome): Job {
    Job(targetDir, IgnorePaths, p => GetTargetName(digest, p), doSymlinks, outcome)
  }

  /** Package names never contain a separator and fingerprints are hexadecimal, so every
      location, as a string, starts with the target directory (a `..` name is not resolved). */
  lemma TargetNamesAreRelative(digest: Digest, targetDir: Path, doSymlinks: bool, outcome: nat -> Outcome)
    ensures RelativeNames(LocalizeJob(digest, targetDir, doSymlinks, outcome))
  {
    var job := LocalizeJob(digest, targetDir, doSymlinks, outcome);
    forall p | job.targetName(p).Some?
      ensures !IsAbsolute(job.targetName(p).value.0) && !IsAbsolute(job.targetName(p).value.1)
    {
      var t := GetTargetName(digest, p).value;
      assert IsLowerHex(t.1[0]);
    }
  }

  /** Everything under the external and toolbox roots matches `ignore_paths`, so in
      `localize_paths` only the internal root ever names a mirror directory. */
  lemma LaterRootsAreIgnored(p: Path)
    requires RezPaths[1] <= p || RezPaths[2] <= p
    ensures AnyMatch(IgnorePaths, p)
  {
    StemsAreLiteral();
    if RezPaths[1] <= p {
      assert IgnorePaths[0] == ExternalArea + "*";
      LiteralStarIsPrefix(ExternalArea, p);
    } else {
      assert IgnorePaths[1] == ToolboxArea + "*";
      LiteralStarIsPrefix(ToolboxArea, p);
      assert ToolboxArea <= RezPaths[2];
    }
  }

  /** `localize_paths(target_dir, paths, do_symlinks)`. */
  method LocalizePaths(fs: FileSystem, digest: Digest, targetDir: Path, paths: seq<Path>, doSymlinks: bool,
                       outcome: nat -> Outcome) returns (r: Localized)
    requires fs.Valid()
    requires targetDir in fs.entries ==> targetDir in fs.dirs
    modifies fs
    ensures fs.Valid()
    ensures var start := EnsureDirSpec(old(fs.State()), targetDir, true);
            var w := Run(LocalizeJob(digest, targetDir, doSymlinks, outcome), start, paths);
            fs.State() == w.disk && r == Report(paths, w.log)
  {
    r := Mirror.LocalizePaths(fs, LocalizeJob(digest, targetDir, doSymlinks, outcome), paths);
  }

  /** The result of `localize_paths` from the filesystem `before`. */
  function Localize(digest: Digest, targetDir: Path, doSymlinks: bool, outcome: nat -> Outcome,
                    before: Disk, paths: seq<Path>): Localized
  {
    var job := LocalizeJob(digest, targetDir, doSymlinks, outcome);
    Report(paths, Run(job, EnsureDirSpec(before, targetDir, true), paths).log)
  }

  /** `ignored` lists, in input order, the inputs that existed and match `ignore_paths` (inputs
      outside the target directory). */
  lemma IgnoredAreIgnorePathInputs(digest: Digest, targetDir: Path, doSymlinks: bool,
                                   outcome: nat -> Outcome, before: Disk, paths: seq<Path>)
    requires forall i :: 0 <= i < |paths| ==> !(targetDir <= paths[i])
    requires Localize(digest, targetDir, doSymlinks, outcome, before, paths).Localized?
    ensures Localize(digest, targetDir, doSymlinks, outcome, before, paths).ignored
         == ExistingExcluded(before.entries, IgnorePaths, paths)
  {
    TargetNamesAreRelative(digest, targetDir, doSymlinks, outcome);
    IgnoredInInputOrder(LocalizeJob(digest, targetDir, doSymlinks, outcome), before, paths);
  }

  /** When the call returns, the input at `i` (outside the target directory) is reported in
      neither list exactly when it did not exist before the call or the `symlink`/`copytree`
      of its fresh location raised. */
  lemma InputsReportedNowhere(digest: Digest, targetDir: Path, doSymlinks: bool, outcome: nat -> Outcome,
                              before: Disk, paths: seq<Path>, i: nat)
    requires i < |paths| && !(targetDir <= paths[i])
    requires Localize(digest, targetDir, doSymlinks, outcome, before, paths).Localized?
    ensures var job := LocalizeJob(digest, targetDir, doSymlinks, outcome);
            var start := EnsureDirSpec(before, targetDir, true);
            var log := Run(job, start, paths).log;
            !log[i].Mirrored? && !log[i].Excluded? <==>
              paths[i] !in before.entries || PopulationFails(job, Run(job, start, paths[..i]).disk, i, paths[i])
  {
    TargetNamesAreRelative(digest, targetDir, doSymlinks, outcome);
    UnreportedOutsideTarget(LocalizeJob(digest, targetDir, doSymlinks, outcome), before, paths, i);
  }

  /** Every reported target is `target_dir/<package name>/<fingerprint>` of an input that existed
      before the call and is not ignored. */
  lemma TargetsAreMirrorLocations(digest: Digest, targetDir: Path, doSymlinks: bool,
                                  outcome: nat -> Outcome, before: Disk, paths: seq<Path>, t: Path)
    requires forall i :: 0 <= i < |paths| ==> !(targetDir <= paths[i])
    requires Localize(digest, targetDir, doSymlinks, outcome, before, paths).Localized?
    requires t in Localize(digest, targetDir, doSymlinks, outcome, before, paths).targets
    ensures exists i ::
      && 0 <= i < |paths| && paths[i] in before.entries && !AnyMatch(IgnorePaths, paths[i])
      && ShortHash(digest, paths[i]).Some?
      && t == Join(Join(targetDir, ExtractPackageName(paths[i])), ShortHash(digest, paths[i]).value)
  {
    var job := LocalizeJob(digest, targetDir, doSymlinks, outcome);
    var start := EnsureDirSpec(before, targetDir, true);
    TargetNamesAreRelative(digest, targetDir, doSymlinks, outcome);
    TargetsAreLocations(job, start, paths, t);
    var i :| 0 <= i < |paths| && LocationOf(job, paths[i]) == Some(t)
      && paths[i] in Run(job, start, paths).disk.entries && !AnyMatch(job.excludes, paths[i]);
    RunOnlyTouchesTarget(job, start, paths);
    if Within(paths[i], targetDir) {
      WithinIsPrefix(paths[i], targetDir);
    }
  }
}
