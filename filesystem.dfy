/**
 * The part of the filesystem the engine looks at and changes: which paths exist and which of
 * them are directories. A `Disk` is a snapshot; `FileSystem` is the mutable object the mirroring
 * code works on, with one method per `os`/`shutil` call it makes.
 */
module FileSystem {
  import opened PathText

  datatype Disk = Disk(entries: set<Path>, dirs: set<Path>)

  /** Every directory is an existing path. */
  predicate Consistent(disk: Disk) {
    disk.dirs <= disk.entries
  }

  /** `p` lies in the tree rooted at `d` (what `shutil.rmtree(d)` deletes). */
  predicate Within(p: Path, d: Path) {
    p == d || d + "/" <= p || (d != [] && d[|d| - 1] == '/' && d <= p)
  }

  lemma WithinIsPrefix(p: Path, d: Path)
    requires Within(p, d)
    ensures d <= p
  {
  }

  /** `shutil.rmtree(d)` */
  function RemoveTree(disk: Disk, d: Path): (r: Disk)
    ensures forall p :: p in r.entries <==> p in disk.entries && !Within(p, d)
    ensures forall p :: p in r.dirs <==> p in disk.dirs && !Within(p, d)
    ensures Consistent(disk) ==> Consistent(r)
  {
    Disk(set p | p in disk.entries && !Within(p, d), set p | p in disk.dirs && !Within(p, d))
  }

  /** `os.makedirs(d)` (missing parent directories are not tracked). */
  function AddDir(disk: Disk, d: Path): (r: Disk)
    ensures r.entries == disk.entries + {d} && r.dirs == disk.dirs + {d}
    ensures Consistent(disk) ==> Consistent(r)
  {
    Disk(disk.entries + {d}, disk.dirs + {d})
  }

  /** `ensure_dir(d, empty)`: with `empty`, an existing `d` is deleted with everything under it;
      then `d` is created if it does not exist. */
  function EnsureDirSpec(disk: Disk, d: Path, empty: bool): (r: Disk)
    ensures d in r.entries
    ensures empty ==> d in r.dirs
    ensures empty && d in disk.entries ==> forall p :: p in r.entries && Within(p, d) ==> p == d
    ensures !empty ==> disk.entries <= r.entries && (d !in disk.entries ==> d in r.dirs)
    ensures !empty && d in disk.entries ==> r == disk
    ensures forall p :: !Within(p, d) ==> (p in r.entries <==> p in disk.entries)
    ensures forall p :: !Within(p, d) ==> (p in r.dirs <==> p in disk.dirs)
    ensures Consistent(disk) ==> Consistent(r)
  {
    var cleared := if empty && d in disk.entries then RemoveTree(disk, d) else disk;
    if d in cleared.entries then cleared else AddDir(cleared, d)
  }

  /** What the filesystem does when asked to create a mirror: succeed, or raise, possibly after
      `copytree` has already created the destination directory. */
  datatype Outcome = Succeeds | Fails(leavesPartialCopy: bool)

  /** `os.symlink(src, dst)` or `shutil.copytree(src, dst)`, and whether it returned normally.
      `copytree` lists `src` before creating anything, so a source that is not a directory makes
      it fail cleanly; a symbolic link is a directory exactly when its target is. */
  function Populate(disk: Disk, src: Path, dst: Path, symlink: bool, outcome: Outcome): (r: (Disk, bool))
    ensures disk.entries <= r.0.entries <= disk.entries + {dst}
    ensures disk.dirs <= r.0.dirs <= disk.dirs + {dst}
    ensures r.1 ==> dst in r.0.entries
    ensures r.1 <==> outcome.Succeeds? && (symlink || src in disk.dirs)
    ensures r.1 && !symlink ==> dst in r.0.dirs
    ensures Consistent(disk) ==> Consistent(r.0)
  {
    if symlink then
      if outcome.Fails? then (disk, false)
      else (Disk(disk.entries + {dst}, if src in disk.dirs then disk.dirs + {dst} else disk.dirs), true)
    else if src !in disk.dirs then (disk, false)
    else match outcome
      case Succeeds => (AddDir(disk, dst), true)
      case Fails(partial) => (if partial then AddDir(disk, dst) else disk, false)
  }

  /** The filesystem with the paths of `tree` written into it, as `git clone` does for the
      clones `clone_all_repos` creates. */
  function Merge(disk: Disk, tree: Disk): (r: Disk)
    ensures forall p :: p in r.entries <==> p in disk.entries || p in tree.entries
    ensures forall p :: p in r.dirs <==> p in disk.dirs || p in tree.dirs
    ensures Consistent(disk) && Consistent(tree) ==> Consistent(r)
  {
    Disk(disk.entries + tree.entries, disk.dirs + tree.dirs)
  }

  class FileSystem {
    var entries: set<Path>
    var dirs: set<Path>

    function State(): Disk
      reads this
    {
      Disk(entries, dirs)
    }

    /** The object describes a possible filesystem. */
    predicate Valid()
      reads this
    {
      Consistent(State())
    }

    constructor (initial: Disk)
      ensures State() == initial
    {
      entries := initial.entries;
      dirs := initial.dirs;
    }

    /** `os.path.exists(p)` */
    predicate Exists(p: Path)
      reads this
    {
      p in entries
    }

    /** `shutil.rmtree(d)`, which refuses anything but a directory. */
    method RmTree(d: Path)
      requires Valid() && d in dirs
      modifies this
      ensures State() == RemoveTree(old(State()), d) && Valid()
    {
      entries := set p | p in entries && !Within(p, d);
      dirs := set p | p in dirs && !Within(p, d);
    }

    /** `os.makedirs(d)`, which refuses an existing path. */
    method MakeDirs(d: Path)
      requires Valid() && d !in entries
      modifies this
      ensures State() == AddDir(old(State()), d) && Valid()
    {
      entries := entries + {d};
      dirs := dirs + {d};
    }

    /** `os.symlink(src, dst)` (when `symlink`) or `shutil.copytree(src, dst)`; `ok` is false when
        it raised. */
    method PopulateFrom(src: Path, dst: Path, symlink: bool, outcome: Outcome) returns (ok: bool)
      requires Valid()
      modifies this
      ensures (State(), ok) == Populate(old(State()), src, dst, symlink, outcome) && Valid()
    {
      if symlink {
        ok := outcome.Succeeds?;
        if ok {
          entries := entries + {dst};
          if src in dirs {
            dirs := dirs + {dst};
          }
        }
      } else if src !in dirs {
        ok := false;
      } else {
        ok := outcome.Succeeds?;
        if ok || outcome.leavesPartialCopy {
          entries := entries + {dst};
          dirs := dirs + {dst};
        }
      }
    }

    /** Writes the paths of `tree` (the clones `clone_all_repos` creates). */
    method Graft(tree: Disk)
      requires Valid() && Consistent(tree)
      modifies this
      ensures State() == Merge(old(State()), tree) && Valid()
    {
      entries := entries + tree.entries;
      dirs := dirs + tree.dirs;
    }
  }

  /** `ensure_dir(directory, empty)`. `rmtree` raises on an existing path that is not a directory;
      callers never pass one. */
  method EnsureDir(fs: FileSystem, d: Path, empty: bool)
    requires fs.Valid()
    requires empty && d in fs.entries ==> d in fs.dirs
    modifies fs
    ensures fs.State() == EnsureDirSpec(old(fs.State()), d, empty) && fs.Valid()
  {
    if empty {
      if fs.Exists(d) {
        fs.RmTree(d);
      }
    }
    if !fs.Exists(d) {
      fs.MakeDirs(d);
    }
  }
}
