# confgen path-translation engine in Dafny

confgen writes a pyright configuration for a rez-based studio pipeline. Before it does, it
rewrites the entries of `PYTHONPATH`. This project models the part of confgen that decides how
those paths are rewritten, and proves properties of it:

- **Package-path split.** A package path splits against the ordered list of package roots into
  root, package name and remainder. This is the pattern `(R1|R2|...)/?([^/]+)(/.*)`, matched
  with `re.match`. `RootPattern` matches it by hand, including its backtracking alternation and
  its `.` wildcard. `Confgen.BreakdownByPackageName` and `Legacy.ExtractPackageName` use it.
- **Mirror target name.** The mirror target name of a path is the package name plus the first
  six hex digits of a SHA-256 digest (`Fingerprint`).
- **Mirroring.** `localize_paths` wipes the mirror directory, then copies or symlinks each
  existing, non-excluded path to `target_dir/<name>/<fingerprint>` (`FileSystem`, `Mirror`).
  The current version and the older single-file version differ only in their constants and
  their name function (`Confgen`, `Legacy`).
- **Repository translation.** `translate_to_repo_paths` classifies each path as translated into
  a local clone of its package's repository, copied, or dropped (`RepoTranslate`).
- **Manifest parser and clone map.** The parser reads the `name = "..."` line of a clone's
  `package.py`. The map from package names to clones is last-write-wins. The clone URL carries
  the access token, and the logged form of that URL hides it (`GetRepos`).

`Sites` holds the pipeline's directory constants and the facts that they contain no glob
wildcards. `PathText` holds the `os.path` and `str` operations on paths, `Glob` holds `fnmatch`,
and `Wrappers` holds `Option`.

Each operation that changes state is a method on a `FileSystem` object. Each is proved against
a function of the state it starts from:

- `Mirror.Run` is the walk of `localize_paths` as a fold over the inputs.
- `RepoTranslate.RouteOf` is the classification the translation loop applies.
- `GetRepos.PackageRepoMapping` is the map build.

The properties the tool promises are proved as lemmas about these functions.

Some parts of the system cannot be seen here or are not deterministic. They become parameters:

- the SHA-256 function (`Digest`);
- the result of each copy or symlink attempt (`outcome`);
- what `os.path.relpath` makes of a clone's working directory (`relTo`);
- the clones found on disk (`clones`), and those `clone_all_repos` would produce (`fetched`)
  together with the files it writes for them (`fetchedTree`);
- the lines of each clone's `package.py`.

The suffix search in `translate_to_repo_paths` (python/confgen/confgen.py:167-182) drops
*leading* segments of the remainder. For `a/b/c` it tries `a/b/c`, then `b/c`, then `c`, and
never tries `a/b`. `RepoTranslate.SuffixSearchDropsLeadingSegments` states this.

Every filesystem state the methods take and leave is consistent: each directory is an existing
path (`FileSystem.Consistent`).

## Model

| member | source | states |
|---|---|---|
| PathText.Join | python/confgen/confgen.py:109-112 | `os.path.join`: an absolute second part replaces the first; otherwise the first part is a prefix of the result, at most one separator is added, and the result ends with the second part |
| PathText.Basename | python/confgen/confgen.py:85 | `os.path.basename`: the result has no separator, is the tail of the path, and is preceded by a separator when shorter than the path |
| PathText.BasenameAfterSeparator | python/confgen/confgen.py:85 | the basename of a directory ending in `/` followed by a separator-free name is that name |
| PathText.SplitOnce | python/confgen/confgen.py:176-179 | `split("/", 1)`: one piece exactly when there is no separator; otherwise a separator-free head, the separator and the rest rebuild the input |
| PathText.LstripSep | python/confgen/confgen.py:168 | `lstrip("/")`: the result is a tail of the input that does not start with `/`, and only separators were removed |
| PathText.UpToNewline | python/confgen/confgen.py:81 | what `.*` consumes: the longest prefix without a newline |
| Glob.AnyMatch | python/confgen/confgen.py:104 | `any(fnmatch(path, pat) ...)` holds exactly when some pattern of the list matches |
| Glob.LiteralStarIsPrefix | python/confgen/confgen.py:42-47 | a pattern `<literal>*` matches exactly the strings that start with the literal |
| Glob.AnyStarSuffixedIsAnyPrefix | python/confgen/confgen.py:144-147 | for a list of `<literal>*` patterns, matching any of them is the same as starting with one of the stems |
| Sites.StemsAreLiteral | python/confgen/confgen.py:42-51 | the stems of every configured glob pattern contain no wildcard |
| Sites.ReleaseAreaHasDot | python/confgen/confgen.py:20 | the release root contains a `.` (in `oa_pipeline.v2`), which the pattern reads as a wildcard |
| RootPattern.DotFitsAnyCharacter | python/confgen/confgen.py:79 | a `.` in a root fits any character but a newline |
| RootPattern.Tail | python/confgen/confgen.py:80-81 | `/?([^/]+)(/.*)`: the name is non-empty and separator-free; the remainder starts with `/` and holds no newline |
| RootPattern.TailIsInfix | python/confgen/confgen.py:80-81 | the name and remainder are consecutive text after the optional separator, and the remainder runs to the end or to the first newline |
| RootPattern.TailOfShape | python/confgen/confgen.py:80-81 | every string `sep name / more` is accepted with exactly that name and remainder `/` + `more` up to its first newline |
| RootPattern.LastSegmentDoesNotFit | python/confgen/confgen.py:81 | a root followed only by a last segment, with no separator after the name, does not fit |
| RootPattern.FirstFit | python/confgen/confgen.py:79 | the alternation settles on the first fitting alternative; none is found exactly when none fits |
| RootPattern.FirstFitIsLeast | python/confgen/confgen.py:79 | an alternative that fits, with none fitting before it, is the one chosen |
| RootPattern.Match | python/confgen/confgen.py:79-84 | `re.match`: no match exactly when no root fits; a match's root group is a prefix of the path as long as the first root in list order that fits, and its name and remainder are the tail after it |
| RootPattern.MatchOfShape | python/confgen/confgen.py:79-84 | a path `root sep name / more` whose earlier roots do not fit yields the groups `(root, name, "/" + more)` |
| RootPattern.MatchOfFit | python/confgen/confgen.py:79-84 | the same when the root only fits the start of the path through its wildcards; the root group is the path's own text |
| Fingerprint.Latin1 | python/confgen/confgen.py:91 | `encode("latin-1")` succeeds exactly when every character is below 256, and then yields each character's code |
| Fingerprint.ShortHash | python/confgen/confgen.py:90-92 | the fingerprint exists exactly when the path is latin-1 encodable, and is six lower-case hex characters |
| FileSystem.RemoveTree | python/confgen/confgen.py:57 | `rmtree(d)` removes exactly the entries and directories in the tree rooted at `d` |
| FileSystem.AddDir | python/confgen/confgen.py:59 | `makedirs(d)` adds `d` as an entry and as a directory |
| FileSystem.EnsureDirSpec | python/confgen/confgen.py:54-60 | afterwards `d` exists; with `empty` it is a directory, and when it existed nothing remains under it; without `empty` nothing is removed and an existing `d` is left alone; nothing outside `d` changes; a consistent filesystem stays consistent |
| FileSystem.Populate | python/confgen/confgen.py:115-119 | a symlink or copy adds at most the destination; it succeeds exactly when the filesystem lets it and, for a copy, the source is a directory; a successful copy is a directory |
| FileSystem.Merge | python/confgen/getrepos.py:63-65 | the clones written by `clone_all_repos` add exactly their paths and directories, and keep the filesystem consistent |
| FileSystem.FileSystem.RmTree | python/confgen/confgen.py:57 | the new state is `RemoveTree` of the old, and stays consistent |
| FileSystem.FileSystem.MakeDirs | python/confgen/confgen.py:59 | the new state is `AddDir` of the old, and stays consistent |
| FileSystem.FileSystem.PopulateFrom | python/confgen/confgen.py:115-119 | the new state and the success flag are those `Populate` gives, and the state stays consistent |
| FileSystem.FileSystem.Graft | python/confgen/getrepos.py:63-65 | the new state is `Merge` of the old and the written clones, and stays consistent |
| FileSystem.EnsureDir | python/confgen/confgen.py:54-60 | `ensure_dir(d, empty)` leaves the state `EnsureDirSpec` describes, and keeps it consistent |
| Mirror.Visit | python/confgen/confgen.py:100-125 | one loop pass: skipped exactly when missing; ignored exactly when existing and excluded; raises exactly when the target name cannot be computed; a reported or dropped location is `target_dir/name/hash`, and a reported one exists; the filesystem is untouched unless a location is reached; only the package directory and the location may be created |
| Mirror.VisitOutcome | python/confgen/confgen.py:108-125 | dropped from both lists exactly when the location did not exist and the `symlink` or `copytree` raised; mirrored in every other case that reaches the `try`; the new filesystem is the placement's (an existing location is reused unwritten); consistency is kept |
| Mirror.RaisedAt | python/confgen/confgen.py:108 | the first input whose target name raised, if any |
| Mirror.Run | python/confgen/confgen.py:100-125 | one verdict per input; the filesystem only grows |
| Mirror.RunKeepsConsistent | python/confgen/confgen.py:100-125 | the loop never records a directory that does not exist |
| Mirror.RunStopsAfterRaise | python/confgen/confgen.py:108 | once a target name raised, the later inputs change neither the filesystem nor the verdict that ends the call |
| Mirror.RunExtends | python/confgen/confgen.py:100 | the walk over a prefix of the inputs is the start of the whole walk, and the filesystem only grows after it |
| Mirror.RunAt | python/confgen/confgen.py:100-125 | each verdict is the visit of its input on the filesystem the earlier inputs left, unless an earlier input raised |
| Mirror.VerdictFacts | python/confgen/confgen.py:100-125 | what each verdict implies about its input: missing, excluded, not encodable, or mirrored at its own location, which exists afterwards |
| Mirror.RunOnlyTouchesTarget | python/confgen/confgen.py:109-119 | no path string that does not start with `target_dir` appears or disappears during the walk |
| Mirror.VerdictOfInput | python/confgen/confgen.py:100-106 | an input outside `target_dir` is skipped exactly when it did not exist at the start, and ignored exactly when it existed and is excluded |
| Mirror.IgnoredInInputOrder | python/confgen/confgen.py:96-106 | after the wipe, `ignored` is exactly the inputs that existed before the call and are excluded, in input order |
| Mirror.ExistingLocationIsReused | python/confgen/confgen.py:115-122 | an existing location is reported without being written, whatever a population attempt would have done |
| Mirror.DuplicateReusesLocation | python/confgen/confgen.py:115-122 | an input repeated after being mirrored is reported again with the same location |
| Mirror.TargetsAreLocations | python/confgen/confgen.py:108-122 | every reported target is the location of an input that exists and is not excluded |
| Mirror.AtMostOneOutputPerInput | python/confgen/confgen.py:100-127 | the two lists together hold at most one entry per input |
| Mirror.RunStep | python/confgen/confgen.py:100-125 | one more input extends the walk by its visit and appends its own report, if any, to the lists |
| Mirror.UnreportedVerdicts | python/confgen/confgen.py:100-125 | when nothing raised, an input contributes to neither list exactly when it was missing or populating its fresh location raised |
| Mirror.UnreportedOutsideTarget | python/confgen/confgen.py:96-125 | the same for an input outside `target_dir`, with its existence read before the call |
| Mirror.LocalizePaths | python/confgen/confgen.py:95-127 | the final filesystem and the result are those of the walk from the wiped state; a raise returns the first input that raised; the filesystem stays consistent |
| Confgen.BreakdownByPackageName | python/confgen/confgen.py:78-85 | the root is non-empty exactly when the release root fits; then it is the path's first `len(root)` characters and the name and remainder are the tail after it; otherwise `("", basename, "")` |
| Confgen.BreakdownOfPackagePath | python/confgen/confgen.py:78-84 | `<release root>[/]name/more` splits into the root, `name` and `/more` |
| Confgen.LastSegmentFallsBack | python/confgen/confgen.py:78-85 | a path whose package segment is its last segment falls back to `("", segment, "")` |
| Confgen.BreakdownOfFit | python/confgen/confgen.py:79-84 | a path that the release root fits through its wildcard splits at the segment after the fitted text |
| Confgen.DotInRootIsAWildcard | python/confgen/confgen.py:20 | any character but a newline in place of the `.` of `oa_pipeline.v2` still matches, and the root group is the path's own text |
| Confgen.GetTargetName | python/confgen/confgen.py:88-92 | defined exactly for latin-1 paths; the name is the breakdown name and the fingerprint six hex characters of the digest |
| Confgen.TargetNamesAreRelative | python/confgen/confgen.py:109-112 | names and fingerprints never start with a separator, so every location string starts with `target_dir` |
| Confgen.NoTranslateIsPrefixTest | python/confgen/confgen.py:42-47 | a path matches `no_translate` exactly when it starts with one of the four stems |
| Confgen.LocalizePaths | python/confgen/confgen.py:95-127 | `localize_paths` of this version: the state and result of the walk with `no_translate` and the breakdown name |
| Confgen.IgnoredAreNoTranslateInputs | python/confgen/confgen.py:100-106 | `ignored` is, in input order, exactly the inputs that existed and match `no_translate` |
| Confgen.TargetsAreMirrorLocations | python/confgen/confgen.py:108-122 | every reported target is `target_dir/<breakdown name>/<fingerprint>` of an input that existed before the call and is not excluded |
| Confgen.InputsReportedNowhere | python/confgen/confgen.py:100-125 | when the call returns, an input outside `target_dir` is in neither list exactly when it did not exist or the population of its fresh location raised |
| Confgen.EncodeErrorIsFirstNonLatin1 | python/confgen/confgen.py:91 | the call raises for the first input that reached the hash and is not latin-1 encodable |
| RepoTranslate.SuffixSearchFindsFirstDirectory | python/confgen/confgen.py:167-182 | the search finds something exactly when some candidate suffix is a directory in the clone, and then finds the first one |
| RepoTranslate.SearchMovesOn | python/confgen/confgen.py:176-179 | a failed candidate moves the search to the text after its first separator |
| RepoTranslate.SuffixSearchDropsLeadingSegments | python/confgen/confgen.py:167-182 | for `a/b/c` a clone directory `a/b` is never found, while `b/c` is |
| RepoTranslate.PackageRouteTranslates | python/confgen/confgen.py:157-182 | a package path is never dropped; it is translated exactly when its package has a clone holding some candidate directory, and the target is the first one |
| RepoTranslate.ClassifyDrops | python/confgen/confgen.py:141-145 | a path is dropped exactly when it is missing or matches `ignore_paths` |
| RepoTranslate.ClassifyCopies | python/confgen/confgen.py:147-161 | a kept path that matches `no_translate`, or whose package has no clone, is copied |
| RepoTranslate.ClassifyTranslates | python/confgen/confgen.py:140-182 | a path is translated exactly when it exists, matches neither list, has a clone and a candidate directory; the target is the first candidate |
| RepoTranslate.EmptyRemainderIsCopied | python/confgen/confgen.py:168-182 | an empty remainder is copied |
| RepoTranslate.NonPackagePathIsNotTranslated | python/confgen/confgen.py:151-169 | a path that no package root fits is never translated, and is copied when it exists and is not ignored, even when its basename names a mapped package |
| RepoTranslate.IgnorePathsIsPrefixTest | python/confgen/confgen.py:49-51 | a path matches `ignore_paths` exactly when it starts with the developer area |
| RepoTranslate.IgnoreAndNoTranslateAreDisjoint | python/confgen/confgen.py:144-149 | no path matches both lists |
| RepoTranslate.ReleasePathIsNotIgnored | python/confgen/confgen.py:144 | paths under the release root are not ignored |
| RepoTranslate.ReleasePathIsNotExcluded | python/confgen/confgen.py:147 | paths under the release root are not excluded from translation |
| RepoTranslate.ReleaseRemainder | python/confgen/confgen.py:151-168 | `<root>name/more` gives the package `name` and the stripped remainder `more` |
| RepoTranslate.ReleaseTranslatesToCloneDirectory | python/confgen/confgen.py:140-182 | `<root>name/version/sub` is translated to `sub` in the clone when the clone has `sub` but not `version/sub` |
| RepoTranslate.FetchedCloneIsSearched | python/confgen/confgen.py:135-171 | on a run that finds no clones, a released version is translated into a directory that only the fetched clones provide |
| RepoTranslate.OneOutputPerInput | python/confgen/confgen.py:140-184 | each input yields at most one output, and exactly one when it is not dropped |
| RepoTranslate.CopiedAreRoutedInputs | python/confgen/confgen.py:148-182 | `copied` holds exactly the inputs routed to it |
| RepoTranslate.TranslatedAreRoutedTargets | python/confgen/confgen.py:172 | `translated` holds exactly the targets the inputs are routed to |
| RepoTranslate.TranslationOutputs | python/confgen/confgen.py:140-184 | copied paths are inputs that exist and are not ignored; translated paths are clone directories; when every input exists and is not ignored, every input is accounted for once |
| RepoTranslate.SearchClone | python/confgen/confgen.py:167-182 | the `while relpath` loop sets `found` exactly when the suffix search finds a directory, and then returns it |
| RepoTranslate.TranslateToRepoPaths | python/confgen/confgen.py:130-184 | creates the clone directory only if missing; when no clones are found, adds the files of the fetched clones; the two lists are those of the classification of each input on that final filesystem, with the mapping built from the clones found, or from the fetched ones when none are found |
| GetRepos.SpaceRun | python/confgen/getrepos.py:95 | a greedy `\s*` takes the whole leading run of whitespace |
| GetRepos.AfterEquals | python/confgen/getrepos.py:95 | `\s*=` consumes at least one character |
| GetRepos.AfterQuote | python/confgen/getrepos.py:95 | `\s*["']` consumes at least one character |
| GetRepos.AfterOpening | python/confgen/getrepos.py:95 | the line must start with `name` at column 0 |
| GetRepos.QuotedValue | python/confgen/getrepos.py:95 | `(.*)["']$`: the value holds no newline and is followed by a quote and at most a final newline |
| GetRepos.MatchNameLine | python/confgen/getrepos.py:95 | a matching line starts with `name`, and its value holds no newline |
| GetRepos.NameLineRoundTrip | python/confgen/getrepos.py:95-97 | every well-formed `name = "value"` line yields its value, whatever the spacing and quote characters |
| GetRepos.MatchedLineIsWellFormed | python/confgen/getrepos.py:95-97 | every matching line is a well-formed name line around the value it yields |
| GetRepos.IndentedLineDoesNotMatch | python/confgen/getrepos.py:95 | an indented line does not match |
| GetRepos.NamespaceLineDoesNotMatch | python/confgen/getrepos.py:95 | a `namespace = ...` line does not match |
| GetRepos.FirstMatch | python/confgen/getrepos.py:94-97 | nothing exactly when no line matches; otherwise the value of a matching line |
| GetRepos.GetPackageName | python/confgen/getrepos.py:89-97 | `None` without `package.py`; otherwise the first line match |
| GetRepos.LaterLinesAreIgnored | python/confgen/getrepos.py:94-97 | lines after the first match cannot change the result |
| GetRepos.FirstMatchIsFirst | python/confgen/getrepos.py:94-97 | the result is the value of the first matching line |
| GetRepos.ConfgenLineMatches | python/confgen/getrepos.py:95 | the line `name = "confgen"` yields `confgen` |
| GetRepos.OwnManifestIsConfgen | python/confgen/getrepos.py:89-97 | a manifest starting with an empty line and `name = "confgen"`, as this repository's own, yields `confgen` |
| GetRepos.LastDeclaring | python/confgen/getrepos.py:128-132 | the last repository whose name is `k`; none exactly when no repository has that name |
| GetRepos.MappingIsLastWriteWins | python/confgen/getrepos.py:128-133 | the keys are exactly the non-empty names, and each maps to the last repository declaring it |
| GetRepos.MappedRepoDeclaresItsKey | python/confgen/getrepos.py:128-133 | every mapped repository declares the name it is filed under |
| GetRepos.GetPackageRepoMapping | python/confgen/getrepos.py:123-133 | the loop builds the last-write-wins map of the parsed package names |
| GetRepos.StripUndoesCloneUrl | python/confgen/getrepos.py:51-53 | removing the credential after each `https://` gives back the original URL, so the rewrite only inserts the credential |
| GetRepos.SchemeStartIsPreserved | python/confgen/getrepos.py:51-53 | the rewritten URL starts with `https://` exactly when the original does |
| GetRepos.CloneUrlUnchangedOrHasAt | python/confgen/getrepos.py:51-53 | the rewrite leaves the URL unchanged or adds an `@` |
| GetRepos.LastAtEnd | python/confgen/getrepos.py:61 | `rsplit("@", 1)[-1]` starts after the last `@`, and no `@` follows |
| GetRepos.LoggedUrl | python/confgen/getrepos.py:61 | the logged URL contains no `@` |
| GetRepos.LoggedUrlHidesCredential | python/confgen/getrepos.py:51-61 | the logged form of the clone URL is a tail of the original URL without any `@`, so the credential never reaches the log |
| Legacy.ExtractPackageName | python/confgen.py:85-92 | the basename when no root fits; otherwise the name group after the first root, in list order, that fits; never a separator |
| Legacy.ReleasePackageName | python/confgen.py:85-91 | a path under the internal release root names the segment after it |
| Legacy.InternalRootSkipsExternal | python/confgen.py:15-17 | the internal root does not fit a path under the external root |
| Legacy.ExternalPackageName | python/confgen.py:85-91 | a path under the external release root names the segment after it |
| Legacy.ReleaseRootsSkipToolbox | python/confgen.py:15-18 | neither release root fits a path under the toolbox root |
| Legacy.ToolboxRootIsARawPrefix | python/confgen.py:18 | the toolbox root is a raw text prefix, so the rest of a segment after `system` is taken as the package name |
| Legacy.SystemdIsPackageD | python/confgen.py:18 | `/Volumes/rnd/toolbox/systemd/x` names the package `d` |
| Legacy.GetTargetName | python/confgen.py:95-99 | defined exactly for latin-1 paths; the name is the extracted name and the fingerprint six hex characters of the digest |
| Legacy.TargetNamesAreRelative | python/confgen.py:116-120 | names and fingerprints never start with a separator, so every location string starts with `target_dir` |
| Legacy.LaterRootsAreIgnored | python/confgen.py:39-45 | every path under the external or toolbox root matches `ignore_paths`, so only the internal root names a mirror directory |
| Legacy.LocalizePaths | python/confgen.py:102-133 | `localize_paths` of this version: the state and result of the walk with `ignore_paths` and the extracted name |
| Legacy.IgnoredAreIgnorePathInputs | python/confgen.py:107-114 | `ignored` is, in input order, exactly the inputs that existed and match `ignore_paths` |
| Legacy.TargetsAreMirrorLocations | python/confgen.py:116-129 | every reported target is `target_dir/<extracted name>/<fingerprint>` of an input that existed before the call and is not ignored |
| Legacy.InputsReportedNowhere | python/confgen.py:107-131 | when the call returns, an input outside `target_dir` is in neither list exactly when it did not exist or the population of its fresh location raised |

## Left out

- The GitHub and git plumbing (`get_token`, `get_github`, `get_repos`, `clone_all_repos`, the thread pool of `clone_repos`, and building `git.Repo` objects in `get_clones`) is network access, foreign libraries and concurrency. The clones found and the clones fetched become parameters. Only the URL expressions of `_clone_repo` are modelled.
- `get_paths`, `get_config`, `generate_pyright_conf` and `default_config` are environment and JSON file input/output. They are not part of this model. Note that `config.update(default_config)` lets the defaults override the values read from the file.
- SHA-256 itself is a parameter: any function from bytes to 64 lower-case hex characters.
- `fnmatch` bracket classes are read as literal characters, because no configured pattern uses them.
- `os.path.relpath` and `os.path.abspath` become the `relTo` parameter. Paths are compared as exact strings and never normalised.
- `os.makedirs` is modelled as creating only the directory itself. Missing parent directories are not tracked.
- The contents of copies and symlink targets are not modelled. A mirror is only a path that exists, and a directory when its source is one.
- Logging and `print` are left out. `print` at python/confgen.py:128 is assumed not to raise.
- FileSystem.EnsureDir: does not model `rmtree` raising on an existing `target_dir` that is not a directory, because that raise would escape the call. The callers' precondition excludes it.
- FileSystem.FileSystem.RmTree: requires a directory, because `rmtree` raises on anything else and no modelled caller passes one.
- FileSystem.FileSystem.MakeDirs: requires a missing path, because `makedirs` raises on an existing one and every modelled call is guarded by an existence test.
- The `except: pass` around populating a mirror is modelled by the `outcome` parameter: succeed, or fail with or without a partial copy left behind. Any other failure inside the `try` is not distinguished.
- GetRepos.CloneUrl inserts the token text literally. Python would also expand backslash escapes in the token, and would insert `None` when the token is unset. The token is an opaque string here.
- `get_package_name` takes the file's lines as `readlines()` would return them. Opening and reading the file is left out.
- The `package is None` branch (python/confgen/confgen.py:152-154) cannot be taken, because `breakdown_by_package_name` always returns a triple. The model has no such branch.
- Legacy.ExtractPackageName: states the name group only, because the older version returns only that group.
- Mirror.RunOnlyTouchesTarget: paths are compared as text, and `.` and `..` are not resolved. An existing input such as `/a/..` has the basename `..` as its package name, so on disk its mirror `target_dir/../<hash>` lies outside `target_dir` and survives the next wipe. The model places it under `target_dir` by string prefix only. Confgen.TargetNamesAreRelative and Legacy.TargetNamesAreRelative have the same limit.
- FileSystem.Populate: a symbolic link to a relative input such as `lib` resolves from `target_dir/<name>/` and usually dangles. On disk `os.path.exists` is then false for it, and a repeated input raises inside the `try` and is dropped. The model treats the link as a directory when its input is one, and reuses it. No caller of the tool passes `do_symlinks=True`.
- RepoTranslate.TranslateToRepoPaths: the files `clone_all_repos` writes are the parameter `fetchedTree`. Nothing ties it to `fetched` or to where `clone_repos` puts each clone.
