/**
 * Where BepInEx lives inside the game directory, how the mod manifest is
 * persisted there, and how an installation is detected and validated.
 */
module BepInEx {
  import opened Common
  import opened FileSystem
  import opened Types
  import Utf8
  import IndexCodec

  /** `index_path`. */
  const IndexPath: Path := "BepInEx/mod-manager.index.json"
  /** `plugins_dir`. */
  const PluginsDir: Path := "BepInEx/plugins"
  /** `bep_config_path`. */
  const ConfigPath: Path := "BepInEx/config/BepInEx.cfg"

  const CoreDll: Path := "BepInEx/core/BepInEx.dll"
  const CoreAltDll: Path := "BepInEx/core/BepInEx.Core.dll"
  const WinHttpDll: Path := "winhttp.dll"

  const CoreMissing := "BepInEx/core/BepInEx.dll or BepInEx.Core.dll not found after extraction"
  const WinHttpMissing := "winhttp.dll not found in game directory after extraction"

  // ------------------------------------------------------------- manifest store

  /**
   * `load_index`: the manifest stored in the index file; a missing file, a
   * file that is not UTF-8 text, and text that is not a manifest all give
   * the empty manifest.
   */
  function LoadIndex(fs: Fs): (r: ModIndex)
    ensures IndexPath !in fs.files ==> r == EmptyIndex
    ensures IndexPath in fs.files && Utf8.Decode(fs.files[IndexPath]).None? ==> r == EmptyIndex
    ensures r != EmptyIndex ==>
      IndexPath in fs.files && Utf8.Decode(fs.files[IndexPath]).Some? &&
      IndexCodec.Parse(Utf8.Decode(fs.files[IndexPath]).value) == Some(r)
  {
    if IndexPath !in fs.files then EmptyIndex
    else match Utf8.Decode(fs.files[IndexPath])
      case None => EmptyIndex
      case Some(text) =>
        match IndexCodec.Parse(text)
        case None => EmptyIndex
        case Some(idx) => idx
  }

  /** `save_index`: create the parent directory, then write the serialised manifest. */
  function SaveIndex(fs: Fs, idx: ModIndex): Fs {
    WithFile(WithDirAll(fs, "BepInEx"), IndexPath, Utf8.Encode(IndexCodec.Serialize(idx)))
  }

  method SaveIndexTo(disk: Disk, idx: ModIndex)
    modifies disk
    ensures disk.State() == SaveIndex(old(disk.State()), idx)
  {
    disk.CreateDirAll("BepInEx");
    disk.WriteFile(IndexPath, Utf8.Encode(IndexCodec.Serialize(idx)));
  }

  /** What `save_index` writes, `load_index` reads back unchanged. */
  lemma LoadAfterSave(fs: Fs, idx: ModIndex)
    ensures LoadIndex(SaveIndex(fs, idx)) == idx
  {
    Utf8.DecodeEncode(IndexCodec.Serialize(idx));
    IndexCodec.ParseSerialize(idx);
  }

  /** Saving touches the index file and the `BepInEx` directory and nothing else. */
  lemma SaveIndexFrame(fs: Fs, idx: ModIndex, p: Path)
    requires p != IndexPath
    ensures p in SaveIndex(fs, idx).files <==> p in fs.files
    ensures p in fs.files ==> SaveIndex(fs, idx).files[p] == fs.files[p]
    ensures SaveIndex(fs, idx).dirs == fs.dirs + {"BepInEx"}
  {
    assert Paths.DirChain("BepInEx") == {"BepInEx"} by {
      forall q | q in Paths.DirChain("BepInEx") ensures q == "BepInEx" {
        var i :| 0 < i <= 7 && (i == 7 || "BepInEx"[i] == '/') && "BepInEx"[i - 1] != '/' && q == "BepInEx"[..i];
      }
      assert "BepInEx"[..7] == "BepInEx";
    }
  }

  // ------------------------------------------------------------- detection

  /** `is_bep_installed`: the core library is there. */
  predicate IsBepInstalled(fs: Fs) {
    Exists(fs, CoreDll)
  }

  /** `detect_bep_status`: the status text, decided by the same test as `is_bep_installed`. */
  function DetectStatus(fs: Fs): (r: string)
    ensures r == "Installed" <==> IsBepInstalled(fs)
    ensures r == "Not installed" <==> !IsBepInstalled(fs)
  {
    if Exists(fs, CoreDll) then "Installed" else "Not installed"
  }

  /**
   * `validate_bepinex_installation`: one of the two core libraries must be
   * there, and then the `winhttp.dll` loader; the core check comes first.
   */
  function Validate(fs: Fs): (r: Outcome)
    ensures r == Err(CoreMissing) <==> !Exists(fs, CoreDll) && !Exists(fs, CoreAltDll)
    ensures r == Err(WinHttpMissing) <==>
      (Exists(fs, CoreDll) || Exists(fs, CoreAltDll)) && !Exists(fs, WinHttpDll)
    ensures r == Ok <==>
      (Exists(fs, CoreDll) || Exists(fs, CoreAltDll)) && Exists(fs, WinHttpDll)
  {
    if !Exists(fs, CoreDll) && !Exists(fs, CoreAltDll) then Err(CoreMissing)
    else if !Exists(fs, WinHttpDll) then Err(WinHttpMissing)
    else Ok
  }

  /** An installation that `is_bep_installed` accepts never fails the core check. */
  lemma InstalledPassesCoreCheck(fs: Fs)
    requires IsBepInstalled(fs)
    ensures Validate(fs) != Err(CoreMissing)
  {
  }

  /**
   * The converse does not hold: a layout with only `BepInEx.Core.dll` (as
   * BepInEx 6 ships) validates, yet `is_bep_installed` stays false.
   */
  lemma ValidWithoutCoreDll()
    ensures var fs := Fs(map[CoreAltDll := [], WinHttpDll := []], {});
            Validate(fs) == Ok && !IsBepInstalled(fs)
  {
  }

  /** `ensure_dirs`: the plugins directory and its ancestors. */
  method EnsureDirs(disk: Disk)
    modifies disk
    ensures disk.State() == WithDirAll(old(disk.State()), PluginsDir)
  {
    disk.CreateDirAll(PluginsDir);
  }
}
