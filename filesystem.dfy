/**
 * The game directory as an abstract tree: regular files with their bytes and
 * the set of directories, both keyed by the path relative to the game
 * directory. No operation here fails: the model has no permissions, no
 * file/directory collisions and no full disks.
 */
module FileSystem {
  import opened Common
  import Paths

  datatype Fs = Fs(files: map<Path, Bytes>, dirs: set<Path>)

  /** `Path::exists`: a file or a directory is there. */
  predicate Exists(fs: Fs, p: Path) {
    p in fs.files || p in fs.dirs
  }

  /** `fs::create_dir_all(p)`. */
  function WithDirAll(fs: Fs, p: Path): Fs {
    fs.(dirs := fs.dirs + Paths.DirChain(p))
  }

  /** `File::create(p)` followed by writing all of `data`. */
  function WithFile(fs: Fs, p: Path, data: Bytes): Fs {
    fs.(files := fs.files[p := data])
  }

  /** `fs::remove_file(p)`; it fails, and changes nothing, on a path that is not a file. */
  function WithoutFile(fs: Fs, p: Path): Fs {
    fs.(files := fs.files - {p})
  }

  /** The filesystem below the game directory, changed in place by the core. */
  class Disk {
    var files: map<Path, Bytes>
    var dirs: set<Path>

    function State(): Fs
      reads this
    {
      Fs(files, dirs)
    }

    constructor (init: Fs)
      ensures State() == init
    {
      files := init.files;
      dirs := init.dirs;
    }

    method CreateDirAll(p: Path)
      modifies this
      ensures State() == WithDirAll(old(State()), p)
    {
      dirs := dirs + Paths.DirChain(p);
    }

    method WriteFile(p: Path, data: Bytes)
      modifies this
      ensures State() == WithFile(old(State()), p, data)
    {
      files := files[p := data];
    }

    method RemoveFile(p: Path)
      modifies this
      ensures State() == WithoutFile(old(State()), p)
    {
      files := files - {p};
    }

    /**
     * Walking the directories below `root` in pre-order and calling
     * `fs::remove_dir` on each, ignoring failures: a directory is visited
     * before anything below it is removed, so exactly the directories that
     * are empty when the walk starts go.
     */
    method RemoveEmptyDirsBelow(root: Path)
      modifies this
      ensures State() == PruneEmptyDirs(old(State()), root)
    {
      dirs := dirs - EmptyDirsBelow(State(), root);
    }
  }

  /** The directories below `root` that hold nothing. */
  function EmptyDirsBelow(fs: Fs, root: Path): set<Path> {
    set d | d in fs.dirs && Below(d, root) && IsEmptyDir(fs, d)
  }

  function PruneEmptyDirs(fs: Fs, root: Path): Fs {
    fs.(dirs := fs.dirs - EmptyDirsBelow(fs, root))
  }

  /** `p` is a directory and no file or directory lies below it. */
  predicate IsEmptyDir(fs: Fs, p: Path) {
    && p in fs.dirs
    && (forall f :: f in fs.files ==> !Below(f, p))
    && (forall d :: d in fs.dirs ==> !Below(d, p))
  }

  /** `q` lies somewhere below the directory `p`. */
  predicate Below(q: Path, p: Path) {
    |p| + 1 <= |q| && q[..|p| + 1] == p + "/"
  }
}
