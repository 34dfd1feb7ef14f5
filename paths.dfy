/**
 * The parts of Rust's `std::path` the core relies on, for '/'-separated
 * relative paths: `file_name`, `file_stem`, `extension`, `parent`, and the
 * set of directories `create_dir_all` brings into existence.
 */
module Paths {
  import opened Common

  /** The index of the last occurrence of `c` in `s`, or -1. */
  function LastIndexOf(s: string, c: char): (r: int)
    ensures -1 <= r < |s|
    ensures r >= 0 ==> s[r] == c
    ensures forall j :: r < j < |s| ==> s[j] != c
  {
    if s == [] then -1
    else if s[|s| - 1] == c then |s| - 1
    else LastIndexOf(s[..|s| - 1], c)
  }

  /** The text after the last '/' (the whole path when there is none). */
  function LastSegment(p: Path): (r: string)
    ensures '/' !in r
    ensures |r| <= |p| && r == p[|p| - |r|..]
    ensures |r| < |p| ==> p[|p| - |r| - 1] == '/'
  {
    p[LastIndexOf(p, '/') + 1..]
  }

  /**
   * `Path::file_name`: the last normal component. Trailing separators and
   * trailing "." components are skipped; a path ending in ".." or naming
   * no component has none.
   */
  function FileName(p: Path): (r: Option<string>)
    ensures r.Some? ==> r.value != "" && '/' !in r.value && r.value != "." && r.value != ".."
    decreases |p|
  {
    if p == "" then None
    else if p[|p| - 1] == '/' then FileName(p[..|p| - 1])
    else
      var seg := LastSegment(p);
      if seg == "." then FileName(p[..|p| - 1])
      else if seg == ".." then None
      else Some(seg)
  }

  /**
   * Splits a file name at its last '.', as `file_stem`/`extension` do: no
   * dot, or a dot only at the start, gives no extension.
   */
  function SplitAtDot(name: string): (r: (string, Option<string>))
    ensures r.1.Some? ==> r.0 + "." + r.1.value == name && r.0 != ""
    ensures r.1.None? ==> r.0 == name
  {
    var d := LastIndexOf(name, '.');
    if d <= 0 then (name, None) else (name[..d], Some(name[d + 1..]))
  }

  /** `Path::file_stem`. */
  function FileStem(p: Path): Option<string> {
    match FileName(p)
    case None => None
    case Some(n) => Some(SplitAtDot(n).0)
  }

  /** `Path::extension`. */
  function Extension(p: Path): Option<string> {
    match FileName(p)
    case None => None
    case Some(n) => SplitAtDot(n).1
  }

  /** The directory part of `p` (everything before its last '/'), as `parent` gives it. */
  function Parent(p: Path): Path {
    var i := LastIndexOf(p, '/');
    if i < 0 then "" else p[..i]
  }

  /** Joining a '/'-free name onto a directory: the name is the last segment and the directory the parent. */
  lemma LastSlashJoin(base: Path, n: string)
    requires '/' !in n
    ensures LastSegment(base + "/" + n) == n && Parent(base + "/" + n) == base
  {
    var p := base + "/" + n;
    var r := LastIndexOf(p, '/');
    assert p[|base|] == '/';
    assert p[r + 1..] == n;
    assert p[..r] == base;
  }

  /** A file name joined onto a directory is the joined path's file name, and the directory its parent. */
  lemma FileNameJoin(base: Path, n: string)
    requires n != "" && '/' !in n && n != "." && n != ".."
    ensures FileName(base + "/" + n) == Some(n) && Parent(base + "/" + n) == base
  {
    var p := base + "/" + n;
    LastSlashJoin(base, n);
    assert p[|p| - 1] == n[|n| - 1];
    assert n[|n| - 1] in n;
  }

  /**
   * The directories that `create_dir_all(p)` makes exist: every non-empty
   * prefix of `p` that ends just before a '/' or at the end of `p`, written
   * without a trailing '/'.
   */
  function DirChain(p: Path): set<Path> {
    set i | 0 < i <= |p| && (i == |p| || p[i] == '/') && p[i - 1] != '/' :: p[..i]
  }
}
