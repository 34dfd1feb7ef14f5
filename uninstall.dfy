/**
 * Uninstalling a mod: the paths its record lists are deleted, the
 * directories below `BepInEx` that are then empty are removed, the record
 * is dropped and the manifest saved. `App.AppState.UninstallMod` is proved to
 * compute `UninstallMod`.
 */
module Uninstall {
  import opened Common
  import opened FileSystem
  import opened Types
  import BepInEx

  /** The directory whose empty subdirectories are pruned. */
  const BepInExDir: Path := "BepInEx"

  /**
   * Deleting, one after the other, the listed paths that exist. A listed
   * path that is a directory stays, since `remove_file` fails on it.
   */
  function RemoveListed(fs: Fs, paths: seq<Path>): Fs
    decreases |paths|
  {
    if paths == [] then fs
    else
      var before := RemoveListed(fs, paths[..|paths| - 1]);
      var p := paths[|paths| - 1];
      if Exists(before, p) then WithoutFile(before, p) else before
  }

  /** Exactly the listed files go; every other file keeps its content, and no directory changes. */
  lemma {:induction false} RemoveListedSpec(fs: Fs, paths: seq<Path>, p: Path)
    ensures p in RemoveListed(fs, paths).files <==> p in fs.files && p !in paths
    ensures p in RemoveListed(fs, paths).files ==> RemoveListed(fs, paths).files[p] == fs.files[p]
    ensures RemoveListed(fs, paths).dirs == fs.dirs
    decreases |paths|
  {
    if paths != [] {
      var init := paths[..|paths| - 1];
      RemoveListedSpec(fs, init, p);
      assert p in paths <==> p in init || p == paths[|paths| - 1];
    }
  }

  /** `Vec::remove(idx)`. */
  function RemoveAt(mods: seq<ModEntry>, idx: nat): seq<ModEntry>
    requires idx < |mods|
  {
    mods[..idx] + mods[idx + 1..]
  }

  /**
   * Removing one record shortens the list by one, keeps the others in
   * order, and keeps ids unique.
   */
  lemma RemoveAtSpec(mods: seq<ModEntry>, idx: nat)
    requires idx < |mods|
    ensures var r := RemoveAt(mods, idx);
            && |r| == |mods| - 1
            && (forall i :: 0 <= i < idx ==> r[i] == mods[i])
            && (forall i :: idx <= i < |r| ==> r[i] == mods[i + 1])
    ensures UniqueIds(mods) ==> UniqueIds(RemoveAt(mods, idx))
  {
    var r := RemoveAt(mods, idx);
    if UniqueIds(mods) {
      forall i, j | 0 <= i < j < |r| ensures r[i].id != r[j].id {
        var i' := if i < idx then i else i + 1;
        var j' := if j < idx then j else j + 1;
        assert r[i] == mods[i'] && r[j] == mods[j'];
      }
    }
  }

  /** `uninstall_mod`: an index past the end changes nothing. */
  function UninstallMod(fs: Fs, mods: seq<ModEntry>, idx: nat): (Fs, seq<ModEntry>) {
    if idx >= |mods| then (fs, mods)
    else
      var pruned := PruneEmptyDirs(RemoveListed(fs, mods[idx].installedFiles), BepInExDir);
      var rest := RemoveAt(mods, idx);
      (BepInEx.SaveIndex(pruned, ModIndex(rest)), rest)
  }

  /**
   * Apart from the manifest file, uninstalling deletes exactly the files
   * the record lists and leaves every other file as it was.
   */
  lemma UninstallFiles(fs: Fs, mods: seq<ModEntry>, idx: nat, p: Path)
    requires idx < |mods| && p != BepInEx.IndexPath
    ensures var r := UninstallMod(fs, mods, idx).0;
            && (p in r.files <==> p in fs.files && p !in mods[idx].installedFiles)
            && (p in r.files ==> r.files[p] == fs.files[p])
  {
    var removed := RemoveListed(fs, mods[idx].installedFiles);
    RemoveListedSpec(fs, mods[idx].installedFiles, p);
    var pruned := PruneEmptyDirs(removed, BepInExDir);
    BepInEx.SaveIndexFrame(pruned, ModIndex(RemoveAt(mods, idx)), p);
  }

  /**
   * Only directories below `BepInEx` that are empty once the files are
   * deleted are removed; the only directory added is `BepInEx` itself.
   */
  lemma UninstallDirs(fs: Fs, mods: seq<ModEntry>, idx: nat, d: Path)
    requires idx < |mods|
    ensures var r := UninstallMod(fs, mods, idx).0;
            && (d in r.dirs ==> d in fs.dirs || d == BepInExDir)
            && (d in fs.dirs && d !in r.dirs ==>
                  Below(d, BepInExDir) && IsEmptyDir(RemoveListed(fs, mods[idx].installedFiles), d))
  {
    var removed := RemoveListed(fs, mods[idx].installedFiles);
    RemoveListedSpec(fs, mods[idx].installedFiles, "");
    var pruned := PruneEmptyDirs(removed, BepInExDir);
    BepInEx.SaveIndexFrame(pruned, ModIndex(RemoveAt(mods, idx)), "");
  }

  /** The record at `idx` goes, the rest keep their order, and ids stay unique. */
  lemma UninstallRecords(fs: Fs, mods: seq<ModEntry>, idx: nat)
    requires idx < |mods|
    ensures var r := UninstallMod(fs, mods, idx).1;
            && |r| == |mods| - 1
            && (forall i :: 0 <= i < idx ==> r[i] == mods[i])
            && (forall i :: idx <= i < |r| ==> r[i] == mods[i + 1])
            && (UniqueIds(mods) ==> UniqueIds(r))
  {
    RemoveAtSpec(mods, idx);
  }
}
