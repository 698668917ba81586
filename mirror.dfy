/**
 * `localize_paths`: mirror every existing, non-excluded input path into
 * `targetDir/<package name>/<fingerprint>` by copying or symlinking it, unless that location
 * already exists. Both versions of the tool share this loop; they differ only in the exclusion
 * patterns and in how the package name is derived, which are part of the `Job`.
 *
 * `Run` is the loop as a function of the filesystem it starts from: it records what happened to
 * each input (`Verdict`) and the filesystem it leaves behind. `LocalizePaths` is the loop itself.
 */
module Mirror {
  import opened Wrappers
  import opened PathText
  import opened Glob
  import opened FileSystem

  datatype Job = Job(
    targetDir: Path,
    excludes: seq<string>,
    /** `get_target_name(path)`: package name and fingerprint, `None` where it raises */
    targetName: Path -> Option<(string, string)>,
    symlinks: bool,
    /** what the filesystem does with the population attempt for the input at each position */
    outcome: nat -> Outcome)

  datatype Verdict =
    | Missing                     // the path does not exist: skipped
    | Excluded                    // matches an exclusion pattern: reported in `ignored`
    | Mirrored(location: Path)    // reported in the target paths
    | Dropped(location: Path)     // populating the location raised: reported nowhere
    | Raised                      // computing the target name raised: the whole call raises
    | NotReached                  // after a raise

  datatype Walk = Walk(disk: Disk, log: seq<Verdict>)

  /** What the call returns, or the path whose encoding made it raise. */
  datatype Localized = Localized(targets: seq<Path>, ignored: seq<Path>) | EncodeError(path: Path)

  /** `target_dir/name/hash` for a path whose target name can be computed. */
  function LocationOf(job: Job, p: Path): Option<Path> {
    match job.targetName(p)
    case None => None
    case Some(t) => Some(Join(Join(job.targetDir, t.0), t.1))
  }

  /** Every path the visit of `p` may create: its package directory and its location. */
  predicate MayCreate(job: Job, p: Path, q: Path) {
    job.targetName(p).Some? &&
    (q == Join(job.targetDir, job.targetName(p).value.0) || Some(q) == LocationOf(job, p))
  }

  /** The filesystem once the package directory of `p` exists: `os.makedirs(_dir)` when it is
      missing. */
  function WithPackageDir(job: Job, disk: Disk, p: Path): (r: Disk)
    requires job.targetName(p).Some?
    ensures Join(job.targetDir, job.targetName(p).value.0) in r.entries
    ensures r.entries == disk.entries + {Join(job.targetDir, job.targetName(p).value.0)}
    ensures disk.dirs <= r.dirs
  {
    var dir := Join(job.targetDir, job.targetName(p).value.0);
    if dir in disk.entries then disk else AddDir(disk, dir)
  }

  /** The input `p` at position `i` reaches the `try` with a location that does not exist yet,
      and the `symlink` or `copytree` there raises. */
  predicate PopulationFails(job: Job, disk: Disk, i: nat, p: Path) {
    && p in disk.entries && !AnyMatch(job.excludes, p) && job.targetName(p).Some?
    && LocationOf(job, p).value !in WithPackageDir(job, disk, p).entries
    && !Populate(WithPackageDir(job, disk, p), p, LocationOf(job, p).value, job.symlinks, job.outcome(i)).1
  }

  /** The `try` block for an input whose target name is `t`: the location is reused when it
      exists, and populated otherwise. */
  function PlaceMirror(job: Job, disk: Disk, i: nat, p: Path): (r: (Disk, Verdict))
    requires job.targetName(p).Some?
    ensures r.1 == Mirrored(LocationOf(job, p).value) || r.1 == Dropped(LocationOf(job, p).value)
    ensures LocationOf(job, p).value in WithPackageDir(job, disk, p).entries ==>
      r == (WithPackageDir(job, disk, p), Mirrored(LocationOf(job, p).value))
    ensures LocationOf(job, p).value !in WithPackageDir(job, disk, p).entries ==>
      (r.0, r.1.Mirrored?) == Populate(WithPackageDir(job, disk, p), p, LocationOf(job, p).value, job.symlinks, job.outcome(i))
  {
    var withDir := WithPackageDir(job, disk, p);
    var location := LocationOf(job, p).value;
    if location in withDir.entries then (withDir, Mirrored(location))
    else
      var populated := Populate(withDir, p, location, job.symlinks, job.outcome(i));
      (populated.0, if populated.1 then Mirrored(location) else Dropped(location))
  }

  /** One pass of the loop body for the input `p` at position `i`. */
  function Visit(job: Job, disk: Disk, i: nat, p: Path): (r: (Disk, Verdict))
    ensures disk.entries <= r.0.entries && disk.dirs <= r.0.dirs
    ensures forall q :: q in r.0.entries && q !in disk.entries ==> MayCreate(job, p, q)
    ensures forall q :: q in r.0.dirs && q !in disk.dirs ==> MayCreate(job, p, q)
    ensures r.1.Missing? <==> p !in disk.entries
    ensures r.1.Excluded? <==> p in disk.entries && AnyMatch(job.excludes, p)
    ensures r.1.Raised? <==> p in disk.entries && !AnyMatch(job.excludes, p) && job.targetName(p).None?
    ensures r.1.Mirrored? ==> Some(r.1.location) == LocationOf(job, p) && r.1.location in r.0.entries
    ensures r.1.Dropped? ==> Some(r.1.location) == LocationOf(job, p)
    ensures !r.1.NotReached?
    ensures !r.1.Mirrored? && !r.1.Dropped? ==> r.0 == disk
  {
    if p !in disk.entries then (disk, Missing)
    else if AnyMatch(job.excludes, p) then (disk, Excluded)
    else if job.targetName(p).None? then (disk, Raised)
    else PlaceMirror(job, disk, i, p)
  }

  /** How the `try` block decides: an input is dropped exactly when its location did not exist
      and the `symlink` or `copytree` raised, and mirrored in every other case where it gets a
      location; the filesystem is the one the placement leaves, and stays consistent. */
  lemma VisitOutcome(job: Job, disk: Disk, i: nat, p: Path)
    ensures var r := Visit(job, disk, i, p);
      && (r.1.Dropped? <==> PopulationFails(job, disk, i, p))
      && (r.1.Mirrored? <==>
            p in disk.entries && !AnyMatch(job.excludes, p) && job.targetName(p).Some? && !PopulationFails(job, disk, i, p))
      && (r.1.Mirrored? || r.1.Dropped? ==> r.0 == PlaceMirror(job, disk, i, p).0)
      && (Consistent(disk) ==> Consistent(r.0))
  {
    if p in disk.entries && !AnyMatch(job.excludes, p) && job.targetName(p).Some? {
      var w := WithPackageDir(job, disk, p);
      var loc := LocationOf(job, p).value;
      if loc !in w.entries {
        var populated := Populate(w, p, loc, job.symlinks, job.outcome(i));
        assert Consistent(w) ==> Consistent(populated.0);
      }
    }
  }

  /** Position of the input whose target name raised, if any. */
  function RaisedAt(log: seq<Verdict>): (k: Option<nat>)
    ensures k.Some? ==> k.value < |log| && log[k.value].Raised?
    ensures k.Some? ==> forall j :: 0 <= j < k.value ==> !log[j].Raised?
    ensures k.None? <==> forall j :: 0 <= j < |log| ==> !log[j].Raised?
  {
    if log == [] then None
    else match RaisedAt(log[..|log| - 1])
      case Some(k) => Some(k)
      case None => if log[|log| - 1].Raised? then Some(|log| - 1) else None
  }

  /** The loop over `ps`, starting from `disk` (the state right after `ensure_dir`). */
  function Run(job: Job, disk: Disk, ps: seq<Path>): (w: Walk)
    ensures |w.log| == |ps|
    ensures disk.entries <= w.disk.entries && disk.dirs <= w.disk.dirs
  {
    if ps == [] then Walk(disk, [])
    else
      var prev := Run(job, disk, ps[..|ps| - 1]);
      var v := if RaisedAt(prev.log).Some? then (prev.disk, NotReached)
               else Visit(job, prev.disk, |ps| - 1, ps[|ps| - 1]);
      Walk(v.0, prev.log + [v.1])
  }

  /** The paths reported as localized, in input order. */
  function MirroredOf(log: seq<Verdict>): seq<Path> {
    if log == [] then []
    else MirroredOf(log[..|log| - 1]) + (if log[|log| - 1].Mirrored? then [log[|log| - 1].location] else [])
  }

  /** The paths reported as ignored, in input order. */
  function IgnoredOf(ps: seq<Path>, log: seq<Verdict>): seq<Path>
    requires |ps| == |log|
  {
    if log == [] then []
    else IgnoredOf(ps[..|ps| - 1], log[..|log| - 1]) + (if log[|log| - 1].Excluded? then [ps[|ps| - 1]] else [])
  }

  function Report(ps: seq<Path>, log: seq<Verdict>): Localized
    requires |ps| == |log|
  {
    match RaisedAt(log)
    case Some(k) => EncodeError(ps[k])
    case None => Localized(MirroredOf(log), IgnoredOf(ps, log))
  }

  /** The walk never records a directory that does not exist. */
  lemma {:induction false} RunKeepsConsistent(job: Job, disk: Disk, ps: seq<Path>)
    requires Consistent(disk)
    ensures Consistent(Run(job, disk, ps).disk)
  {
    if ps != [] {
      var q := ps[..|ps| - 1];
      RunKeepsConsistent(job, disk, q);
      VisitOutcome(job, Run(job, disk, q).disk, |ps| - 1, ps[|ps| - 1]);
    }
  }

  /** Once a target name has raised, the rest of the inputs change nothing. */
  lemma {:induction false} RunStopsAfterRaise(job: Job, disk: Disk, ps: seq<Path>, m: nat)
    requires m <= |ps|
    requires RaisedAt(Run(job, disk, ps[..m]).log).Some?
    ensures Run(job, disk, ps).disk == Run(job, disk, ps[..m]).disk
    ensures RaisedAt(Run(job, disk, ps).log) == RaisedAt(Run(job, disk, ps[..m]).log)
  {
    if m < |ps| {
      var q := ps[..|ps| - 1];
      assert q[..m] == ps[..m];
      RunStopsAfterRaise(job, disk, q, m);
      var log := Run(job, disk, q).log;
      assert (log + [NotReached])[..|log|] == log;
    } else {
      assert ps[..m] == ps;
    }
  }

  /** A walk over a prefix of the inputs is the beginning of the walk over all of them, and the
      filesystem only grows after that point. */
  lemma {:induction false} RunExtends(job: Job, disk: Disk, ps: seq<Path>, k: nat)
    requires k <= |ps|
    ensures Run(job, disk, ps[..k]).log == Run(job, disk, ps).log[..k]
    ensures Run(job, disk, ps[..k]).disk.entries <= Run(job, disk, ps).disk.entries
    ensures Run(job, disk, ps[..k]).disk.dirs <= Run(job, disk, ps).disk.dirs
  {
    if k == |ps| {
      assert ps[..k] == ps;
    } else {
      var q := ps[..|ps| - 1];
      assert q[..k] == ps[..k];
      RunExtends(job, disk, q, k);
      var prev := Run(job, disk, q);
      var w := Run(job, disk, ps);
      assert w.log[..|q|] == prev.log;
      assert w.log[..k] == prev.log[..k];
    }
  }

  /** Each verdict is the visit of its input on the filesystem that the earlier inputs left
      behind, unless an earlier target name raised. */
  lemma RunAt(job: Job, disk: Disk, ps: seq<Path>, i: nat)
    requires i < |ps|
    ensures Run(job, disk, ps).log[i] ==
      if RaisedAt(Run(job, disk, ps[..i]).log).Some? then NotReached
      else Visit(job, Run(job, disk, ps[..i]).disk, i, ps[i]).1
    ensures RaisedAt(Run(job, disk, ps[..i]).log).None? ==>
      Run(job, disk, ps[..i + 1]).disk == Visit(job, Run(job, disk, ps[..i]).disk, i, ps[i]).0
  {
    RunExtends(job, disk, ps, i + 1);
    var upTo := ps[..i + 1];
    assert upTo[..i] == ps[..i];
    RunLast(job, disk, upTo);
  }

  /** The last verdict of a walk, and the filesystem it leaves. */
  lemma RunLast(job: Job, disk: Disk, ps: seq<Path>)
    requires ps != []
    ensures var prev := Run(job, disk, ps[..|ps| - 1]);
      && Run(job, disk, ps).log[|ps| - 1] ==
           (if RaisedAt(prev.log).Some? then NotReached else Visit(job, prev.disk, |ps| - 1, ps[|ps| - 1]).1)
      && (RaisedAt(prev.log).None? ==> Run(job, disk, ps).disk == Visit(job, prev.disk, |ps| - 1, ps[|ps| - 1]).0)
  {
  }

  /** What each verdict says about its input. */
  lemma VerdictFacts(job: Job, disk: Disk, ps: seq<Path>, i: nat)
    requires i < |ps|
    ensures var w := Run(job, disk, ps);
      var v := w.log[i];
      && (v.Missing? ==> ps[i] !in disk.entries)
      && (v.Excluded? ==> AnyMatch(job.excludes, ps[i]))
      && (v.Raised? ==> job.targetName(ps[i]).None?)
      && (v.Mirrored? ==>
            && Some(v.location) == LocationOf(job, ps[i])
            && v.location in w.disk.entries
            && ps[i] in w.disk.entries
            && !AnyMatch(job.excludes, ps[i]))
      && (v.Dropped? ==> Some(v.location) == LocationOf(job, ps[i]))
      && (v.NotReached? ==> RaisedAt(w.log).Some?)
  {
    var w := Run(job, disk, ps);
    RunAt(job, disk, ps, i);
    RunExtends(job, disk, ps, i + 1);
    RunExtends(job, disk, ps, i);
    var prev := Run(job, disk, ps[..i]);
    if RaisedAt(prev.log).Some? {
      var k := RaisedAt(prev.log).value;
      assert w.log[k] == prev.log[k];
    }
  }

  /** The names and fingerprints `job.targetName` produces never start with a separator. */
  ghost predicate RelativeNames(job: Job) {
    forall p :: job.targetName(p).Some? ==>
      !IsAbsolute(job.targetName(p).value.0) && !IsAbsolute(job.targetName(p).value.1)
  }

  predicate OutsideTarget(job: Job, ps: seq<Path>) {
    forall i :: 0 <= i < |ps| ==> !(job.targetDir <= ps[i])
  }

  /** The mirroring only writes paths whose text starts with `targetDir`: no path string that
      does not appears or disappears during the walk. Paths are not resolved, so a `..` in a
      package name is just text here. */
  lemma {:induction false} RunOnlyTouchesTarget(job: Job, disk: Disk, ps: seq<Path>)
    requires RelativeNames(job)
    ensures forall q :: !(job.targetDir <= q) ==> (q in Run(job, disk, ps).disk.entries <==> q in disk.entries)
    ensures forall q :: !(job.targetDir <= q) ==> (q in Run(job, disk, ps).disk.dirs <==> q in disk.dirs)
  {
    if ps != [] {
      var q := ps[..|ps| - 1];
      RunOnlyTouchesTarget(job, disk, q);
      var p := ps[|ps| - 1];
      forall x | MayCreate(job, p, x)
        ensures job.targetDir <= x
      {
        var t := job.targetName(p).value;
        var dir := Join(job.targetDir, t.0);
        assert job.targetDir <= dir;
        assert dir <= Join(dir, t.1);
      }
    }
  }

  /** For an input outside the target directory the first two rules of the loop see the
      filesystem as it was when the walk started: the input is skipped exactly when it did not
      exist, and ignored exactly when it existed and matches an exclusion pattern. */
  lemma VerdictOfInput(job: Job, disk: Disk, ps: seq<Path>, i: nat)
    requires RelativeNames(job)
    requires i < |ps| && !(job.targetDir <= ps[i])
    requires !Run(job, disk, ps).log[i].NotReached?
    ensures Run(job, disk, ps).log[i].Missing? <==> ps[i] !in disk.entries
    ensures Run(job, disk, ps).log[i].Excluded? <==> ps[i] in disk.entries && AnyMatch(job.excludes, ps[i])
  {
    RunAt(job, disk, ps, i);
    RunOnlyTouchesTarget(job, disk, ps[..i]);
  }

  /** The existing inputs that match an exclusion pattern, in input order. */
  function ExistingExcluded(entries: set<Path>, excludes: seq<string>, ps: seq<Path>): (r: seq<Path>)
    ensures |r| <= |ps|
  {
    if ps == [] then []
    else ExistingExcluded(entries, excludes, ps[..|ps| - 1])
         + (if ps[|ps| - 1] in entries && AnyMatch(excludes, ps[|ps| - 1]) then [ps[|ps| - 1]] else [])
  }

  /** `ignored` lists exactly the inputs that existed before the call and match an exclusion
      pattern, in input order (for inputs outside the target directory, which the initial wipe
      and the mirroring cannot affect). */
  lemma IgnoredInInputOrder(job: Job, before: Disk, ps: seq<Path>)
    requires RelativeNames(job) && OutsideTarget(job, ps)
    requires Report(ps, Run(job, EnsureDirSpec(before, job.targetDir, true), ps).log).Localized?
    ensures Report(ps, Run(job, EnsureDirSpec(before, job.targetDir, true), ps).log).ignored
         == ExistingExcluded(before.entries, job.excludes, ps)
  {
    var start := EnsureDirSpec(before, job.targetDir, true);
    forall i | 0 <= i < |ps|
      ensures ps[i] in start.entries <==> ps[i] in before.entries
    {
      if Within(ps[i], job.targetDir) {
        WithinIsPrefix(ps[i], job.targetDir);
      }
    }
    IgnoredFromStart(job, start, before.entries, ps);
  }

  lemma {:induction false} IgnoredFromStart(job: Job, start: Disk, entries: set<Path>, ps: seq<Path>)
    requires RelativeNames(job) && OutsideTarget(job, ps)
    requires forall i :: 0 <= i < |ps| ==> (ps[i] in start.entries <==> ps[i] in entries)
    requires RaisedAt(Run(job, start, ps).log).None?
    ensures IgnoredOf(ps, Run(job, start, ps).log) == ExistingExcluded(entries, job.excludes, ps)
  {
    if ps != [] {
      var q := ps[..|ps| - 1];
      var log := Run(job, start, ps).log;
      RunExtends(job, start, ps, |q|);
      assert log[..|q|] == Run(job, start, q).log;
      IgnoredFromStart(job, start, entries, q);
      VerdictFacts(job, start, ps, |q|);
      VerdictOfInput(job, start, ps, |q|);
    }
  }

  /** A location that already exists is reused: the input is reported with it whatever the
      filesystem would have done with a population attempt, and the location is not written. */
  lemma ExistingLocationIsReused(job: Job, disk: Disk, i: nat, p: Path, loc: Path)
    requires p in disk.entries && !AnyMatch(job.excludes, p)
    requires LocationOf(job, p) == Some(loc) && loc in disk.entries
    ensures Visit(job, disk, i, p).1 == Mirrored(loc)
    ensures Visit(job, disk, i, p).0.entries == disk.entries + {Join(job.targetDir, job.targetName(p).value.0)}
  {
  }

  /** An input that appears twice is reported twice with the same location: the second time
      the location exists, so it is reused whatever the filesystem would have done. */
  lemma DuplicateReusesLocation(job: Job, disk: Disk, ps: seq<Path>, i: nat, j: nat)
    requires i < j < |ps| && ps[i] == ps[j]
    requires Run(job, disk, ps).log[i].Mirrored?
    requires !Run(job, disk, ps).log[j].NotReached?
    ensures Run(job, disk, ps).log[j] == Run(job, disk, ps).log[i]
  {
    var loc := Run(job, disk, ps).log[i].location;
    VerdictFacts(job, disk, ps, i);
    RunExtends(job, disk, ps, j);
    VerdictFacts(job, disk, ps[..j], i);
    RunAt(job, disk, ps, j);
    ExistingLocationIsReused(job, Run(job, disk, ps[..j]).disk, j, ps[j], loc);
  }

  lemma {:induction false} MirroredOfComesFromLog(log: seq<Verdict>, t: Path)
    requires t in MirroredOf(log)
    ensures exists i :: 0 <= i < |log| && log[i] == Mirrored(t)
  {
    var q := log[..|log| - 1];
    if t in MirroredOf(q) {
      MirroredOfComesFromLog(q, t);
      var i :| 0 <= i < |q| && q[i] == Mirrored(t);
      assert log[i] == q[i];
    } else {
      assert log[|log| - 1] == Mirrored(t);
    }
  }

  /** Every reported target is the location `target_dir/name/hash` of one of the inputs, an
      input that exists and is not excluded. */
  lemma TargetsAreLocations(job: Job, disk: Disk, ps: seq<Path>, t: Path)
    requires Report(ps, Run(job, disk, ps).log).Localized?
    requires t in Report(ps, Run(job, disk, ps).log).targets
    ensures exists i ::
      && 0 <= i < |ps| && LocationOf(job, ps[i]) == Some(t)
      && ps[i] in Run(job, disk, ps).disk.entries && !AnyMatch(job.excludes, ps[i])
  {
    var log := Run(job, disk, ps).log;
    MirroredOfComesFromLog(log, t);
    var i :| 0 <= i < |log| && log[i] == Mirrored(t);
    VerdictFacts(job, disk, ps, i);
  }

  /** Each input yields at most one reported path. */
  lemma {:induction false} AtMostOneOutputPerInput(ps: seq<Path>, log: seq<Verdict>)
    requires |ps| == |log|
    ensures |MirroredOf(log)| + |IgnoredOf(ps, log)| <= |ps|
  {
    if log != [] {
      AtMostOneOutputPerInput(ps[..|ps| - 1], log[..|log| - 1]);
    }
  }

  /** How one more input extends the walk and the reports, while nothing has raised. */
  lemma RunStep(job: Job, disk: Disk, ps: seq<Path>, i: nat)
    requires i < |ps|
    requires RaisedAt(Run(job, disk, ps[..i]).log).None?
    ensures var prev := Run(job, disk, ps[..i]);
            var v := Visit(job, prev.disk, i, ps[i]);
            var next := Run(job, disk, ps[..i + 1]);
            && next == Walk(v.0, prev.log + [v.1])
            && MirroredOf(next.log) == MirroredOf(prev.log) + (if v.1.Mirrored? then [v.1.location] else [])
            && IgnoredOf(ps[..i + 1], next.log) == IgnoredOf(ps[..i], prev.log) + (if v.1.Excluded? then [ps[i]] else [])
            && RaisedAt(next.log) == (if v.1.Raised? then Some(i) else None)
  {
    var prev := Run(job, disk, ps[..i]);
    var v := Visit(job, prev.disk, i, ps[i]);
    assert ps[..i + 1][..i] == ps[..i];
    var log := prev.log + [v.1];
    assert log[..i] == prev.log;
  }

  /** When nothing raised, the input at `i` contributes to neither list exactly when it was
      missing or populating its fresh location failed, on the filesystem the earlier inputs left. */
  lemma UnreportedVerdicts(job: Job, disk: Disk, ps: seq<Path>, i: nat)
    requires i < |ps|
    requires RaisedAt(Run(job, disk, ps).log).None?
    ensures var log := Run(job, disk, ps).log;
            var prev := Run(job, disk, ps[..i]).disk;
            !log[i].Mirrored? && !log[i].Excluded? <==> ps[i] !in prev.entries || PopulationFails(job, prev, i, ps[i])
  {
    RunExtends(job, disk, ps, i);
    RunAt(job, disk, ps, i);
    VisitOutcome(job, Run(job, disk, ps[..i]).disk, i, ps[i]);
  }

  /** The same for an input outside the target directory, whose existence is read from the
      filesystem before the call. */
  lemma UnreportedOutsideTarget(job: Job, before: Disk, ps: seq<Path>, i: nat)
    requires RelativeNames(job)
    requires i < |ps| && !(job.targetDir <= ps[i])
    requires RaisedAt(Run(job, EnsureDirSpec(before, job.targetDir, true), ps).log).None?
    ensures var start := EnsureDirSpec(before, job.targetDir, true);
            var log := Run(job, start, ps).log;
            !log[i].Mirrored? && !log[i].Excluded? <==>
              ps[i] !in before.entries || PopulationFails(job, Run(job, start, ps[..i]).disk, i, ps[i])
  {
    var start := EnsureDirSpec(before, job.targetDir, true);
    UnreportedVerdicts(job, start, ps, i);
    RunOnlyTouchesTarget(job, start, ps[..i]);
    if Within(ps[i], job.targetDir) {
      WithinIsPrefix(ps[i], job.targetDir);
    }
  }

  /** `localize_paths(target_dir, paths, do_symlinks)`. */
  method LocalizePaths(fs: FileSystem, job: Job, paths: seq<Path>) returns (r: Localized)
    requires fs.Valid()
    requires job.targetDir in fs.entries ==> job.targetDir in fs.dirs
    modifies fs
    ensures fs.Valid()
    ensures fs.State() == Run(job, EnsureDirSpec(old(fs.State()), job.targetDir, true), paths).disk
    ensures r == Report(paths, Run(job, EnsureDirSpec(old(fs.State()), job.targetDir, true), paths).log)
  {
    EnsureDir(fs, job.targetDir, true);
    ghost var start := fs.State();
    var ignored: seq<Path> := [];
    var targetPaths: seq<Path> := [];
    var i := 0;
    while i < |paths|
      invariant 0 <= i <= |paths|
      invariant fs.State() == Run(job, start, paths[..i]).disk
      invariant fs.Valid()
      invariant RaisedAt(Run(job, start, paths[..i]).log).None?
      invariant targetPaths == MirroredOf(Run(job, start, paths[..i]).log)
      invariant ignored == IgnoredOf(paths[..i], Run(job, start, paths[..i]).log)
    {
      var path := paths[i];
      RunStep(job, start, paths, i);
      if !fs.Exists(path) {
        i := i + 1;
        continue;
      }
      if AnyMatch(job.excludes, path) {
        ignored := ignored + [path];
        i := i + 1;
        continue;
      }
      var name := job.targetName(path);
      if name.None? {
        RunStopsAfterRaise(job, start, paths, i + 1);
        return EncodeError(path);
      }
      var dir := Join(job.targetDir, name.value.0);
      if !fs.Exists(dir) {
        fs.MakeDirs(dir);
      }
      var targetPath := Join(dir, name.value.1);
      if !fs.Exists(targetPath) {
        var ok := fs.PopulateFrom(path, targetPath, job.symlinks, job.outcome(i));
        if ok {
          targetPaths := targetPaths + [targetPath];
        }
      } else {
        targetPaths := targetPaths + [targetPath];
      }
      i := i + 1;
    }
    assert paths[..i] == paths;
    r := Localized(targetPaths, ignored);
  }
}
