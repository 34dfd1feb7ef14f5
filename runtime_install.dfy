/**
 * Installing the BepInEx runtime from a downloaded archive: every entry is
 * written below the game directory in archive order, then the log-listener
 * key of the BepInEx config is turned off.
 */
module RuntimeInstall {
  import opened Common
  import opened FileSystem
  import opened Zip
  import Paths
  import BepInEx
  import LogConfig
  import Utf8

  /** An entry that writes a file: readable, named, and not a directory. */
  predicate WritesFile(e: Entry) {
    e.Entry? && e.name != "" && !IsDirName(e.name)
  }

  /** The directories writing `e` brings into existence. */
  function EntryDirs(e: Entry): set<Path> {
    if e.Corrupt? || e.name == "" then {}
    else if IsDirName(e.name) then Paths.DirChain(e.name)
    else Paths.DirChain(Paths.Parent(e.name))
  }

  /** One entry of the extraction loop; an entry with an empty name is skipped. */
  function ExtractEntry(fs: Fs, e: Entry): Fs
    requires e.Entry?
  {
    if e.name == "" then fs
    else if IsDirName(e.name) then WithDirAll(fs, e.name)
    else WithFile(WithDirAll(fs, Paths.Parent(e.name)), e.name, e.data)
  }

  /** The entries written one after the other. */
  function ExtractAll(fs: Fs, es: seq<Entry>): Fs
    requires AllReadable(es)
    decreases |es|
  {
    if es == [] then fs
    else ExtractEntry(ExtractAll(fs, es[..|es| - 1]), es[|es| - 1])
  }

  /**
   * `install_bepinex_from_zip_bytes`: an archive the reader rejects changes
   * nothing; otherwise the entries are written in order until the first one
   * the reader fails on, whose error is returned. When all were written the
   * config is patched, and a failure of that patch is ignored.
   */
  function InstallFromZip(fs: Fs, zip: Archive): (Fs, Outcome) {
    match zip
    case NotAZip(reason) => (fs, Err(reason))
    case Archive(es) =>
      match FirstCorrupt(es)
      case Some(k) => (ExtractAll(fs, es[..k]), Err(es[k].reason))
      case None => (LogConfig.PatchConfig(ExtractAll(fs, es)).0, Ok)
  }

  method InstallBepInExFromZipBytes(disk: Disk, zip: Archive) returns (r: Outcome)
    modifies disk
    ensures (disk.State(), r) == InstallFromZip(old(disk.State()), zip)
  {
    if zip.NotAZip? {
      return Err(zip.reason);
    }
    var es := zip.entries;
    var i := 0;
    while i < |es|
      invariant 0 <= i <= |es| && AllReadable(es[..i])
      invariant disk.State() == ExtractAll(old(disk.State()), es[..i])
    {
      var e := es[i];
      if e.Corrupt? {
        FirstCorruptAt(es, i);
        return Err(e.reason);
      }
      assert es[..i + 1][..i] == es[..i];
      if e.name == "" {
      } else if IsDirName(e.name) {
        disk.CreateDirAll(e.name);
      } else {
        disk.CreateDirAll(Paths.Parent(e.name));
        disk.WriteFile(e.name, e.data);
      }
      i := i + 1;
    }
    assert es[..i] == es;
    var _ := LogConfig.SetUnityLogListeningFalse(disk);
    r := Ok;
  }

  lemma FirstCorruptAt(es: seq<Entry>, i: nat)
    requires i < |es| && es[i].Corrupt? && AllReadable(es[..i])
    ensures FirstCorrupt(es) == Some(i)
  {
  }

  // ------------------------------------------------------------- reference definitions

  /** The last entry that writes the file `p`. */
  function LastWrite(es: seq<Entry>, p: Path): (r: Option<nat>)
    ensures r.Some? ==> r.value < |es| && WritesFile(es[r.value]) && es[r.value].name == p
    ensures r.Some? ==> forall j :: r.value < j < |es| ==> !(WritesFile(es[j]) && es[j].name == p)
    ensures r.None? ==> forall j :: 0 <= j < |es| ==> !(WritesFile(es[j]) && es[j].name == p)
    decreases |es|
  {
    if es == [] then None
    else if WritesFile(es[|es| - 1]) && es[|es| - 1].name == p then Some(|es| - 1)
    else LastWrite(es[..|es| - 1], p)
  }

  /** Every directory some entry brings into existence. */
  function MadeDirs(es: seq<Entry>): set<Path>
    decreases |es|
  {
    if es == [] then {} else MadeDirs(es[..|es| - 1]) + EntryDirs(es[|es| - 1])
  }

  /**
   * What extraction leaves: each path holds the data of the last entry
   * writing it, a path no entry writes keeps what it held, and the
   * directories are the old ones plus those the entries make.
   */
  lemma {:induction false} ExtractAllFiles(fs: Fs, es: seq<Entry>, p: Path)
    requires AllReadable(es)
    ensures var r := ExtractAll(fs, es);
            && (p in r.files <==> p in fs.files || LastWrite(es, p).Some?)
            && (LastWrite(es, p).Some? ==> r.files[p] == es[LastWrite(es, p).value].data)
            && (LastWrite(es, p).None? && p in fs.files ==> r.files[p] == fs.files[p])
    decreases |es|
  {
    if es != [] {
      var init := es[..|es| - 1];
      assert AllReadable(init) by {
        forall i | 0 <= i < |init| ensures init[i].Entry? {
          assert init[i] == es[i];
        }
      }
      ExtractAllFiles(fs, init, p);
      var e := es[|es| - 1];
      if !(WritesFile(e) && e.name == p) {
        var k := LastWrite(init, p);
        if k.Some? {
          assert init[k.value] == es[k.value];
        }
      }
    }
  }

  lemma {:induction false} ExtractAllDirs(fs: Fs, es: seq<Entry>)
    requires AllReadable(es)
    ensures ExtractAll(fs, es).dirs == fs.dirs + MadeDirs(es)
    decreases |es|
  {
    if es != [] {
      var init := es[..|es| - 1];
      assert AllReadable(init) by {
        forall i | 0 <= i < |init| ensures init[i].Entry? {
          assert init[i] == es[i];
        }
      }
      ExtractAllDirs(fs, init);
    }
  }

  /** Extracting the same archive twice leaves what extracting it once does. */
  lemma ExtractAllIdempotent(fs: Fs, es: seq<Entry>)
    requires AllReadable(es)
    ensures ExtractAll(ExtractAll(fs, es), es) == ExtractAll(fs, es)
  {
    var once := ExtractAll(fs, es);
    var twice := ExtractAll(once, es);
    forall p ensures (p in twice.files <==> p in once.files) && (p in once.files ==> twice.files[p] == once.files[p]) {
      ExtractAllFiles(fs, es, p);
      ExtractAllFiles(once, es, p);
    }
    assert twice.files == once.files;
    ExtractAllDirs(fs, es);
    ExtractAllDirs(once, es);
  }

  /** Every file an entry writes is there after extraction. */
  lemma ExtractAllWrites(fs: Fs, es: seq<Entry>, k: nat)
    requires AllReadable(es) && k < |es| && WritesFile(es[k])
    ensures es[k].name in ExtractAll(fs, es).files
  {
    ExtractAllFiles(fs, es, es[k].name);
  }

  /** Every directory an entry makes is there after extraction. */
  lemma ExtractAllMakes(fs: Fs, es: seq<Entry>, k: nat)
    requires AllReadable(es) && k < |es|
    ensures EntryDirs(es[k]) <= ExtractAll(fs, es).dirs
  {
    ExtractAllDirs(fs, es);
    MadeDirsHas(es, k);
  }

  lemma {:induction false} MadeDirsHas(es: seq<Entry>, k: nat)
    requires k < |es|
    ensures EntryDirs(es[k]) <= MadeDirs(es)
    decreases |es|
  {
    if k < |es| - 1 {
      assert es[..|es| - 1][k] == es[k];
      MadeDirsHas(es[..|es| - 1], k);
    }
  }

  // ------------------------------------------------------------- the whole install

  /** Patching the config touches only the config file, and removes nothing. */
  lemma PatchConfigFrame(fs: Fs, p: Path)
    ensures var r := LogConfig.PatchConfig(fs).0;
            && fs.dirs <= r.dirs
            && (p in fs.files ==> p in r.files)
            && (p != BepInEx.ConfigPath ==> (p in r.files <==> p in fs.files))
            && (p != BepInEx.ConfigPath && p in fs.files ==> r.files[p] == fs.files[p])
  {
  }

  /** The install succeeds exactly when the archive opens and every entry reads. */
  lemma InstallOutcome(fs: Fs, zip: Archive)
    ensures InstallFromZip(fs, zip).1 == Ok <==> zip.Archive? && AllReadable(zip.entries)
    ensures zip.NotAZip? ==> InstallFromZip(fs, zip) == (fs, Err(zip.reason))
  {
  }

  /**
   * After a successful install, every file keeps the data of the last entry
   * writing it, except the config, which the log patch may rewrite.
   */
  lemma InstallKeepsEntryData(fs: Fs, zip: Archive, p: Path)
    requires InstallFromZip(fs, zip).1 == Ok
    requires LastWrite(zip.entries, p).Some? && p != BepInEx.ConfigPath
    ensures p in InstallFromZip(fs, zip).0.files
    ensures InstallFromZip(fs, zip).0.files[p] == zip.entries[LastWrite(zip.entries, p).value].data
  {
    ExtractAllFiles(fs, zip.entries, p);
    PatchConfigFrame(ExtractAll(fs, zip.entries), p);
  }

  /** A successful install leaves a file at every path a file entry writes. */
  lemma InstallWritesFiles(fs: Fs, zip: Archive)
    requires InstallFromZip(fs, zip).1 == Ok
    ensures forall k :: 0 <= k < |zip.entries| && WritesFile(zip.entries[k]) ==>
              zip.entries[k].name in InstallFromZip(fs, zip).0.files
  {
    var ex := ExtractAll(fs, zip.entries);
    forall k | 0 <= k < |zip.entries| && WritesFile(zip.entries[k])
      ensures zip.entries[k].name in InstallFromZip(fs, zip).0.files
    {
      ExtractAllWrites(fs, zip.entries, k);
      PatchConfigFrame(ex, zip.entries[k].name);
    }
  }

  /** A successful install leaves every directory an entry makes. */
  lemma InstallMakesDirs(fs: Fs, zip: Archive, k: nat)
    requires InstallFromZip(fs, zip).1 == Ok && k < |zip.entries|
    ensures EntryDirs(zip.entries[k]) <= InstallFromZip(fs, zip).0.dirs
  {
    ExtractAllMakes(fs, zip.entries, k);
    PatchConfigFrame(ExtractAll(fs, zip.entries), "");
  }

  /**
   * An archive that holds the core library and the `winhttp.dll` loader
   * installs into a directory that validates and is detected as installed.
   */
  lemma InstallValidates(fs: Fs, zip: Archive, i: nat, j: nat)
    requires InstallFromZip(fs, zip).1 == Ok
    requires i < |zip.entries| && WritesFile(zip.entries[i]) && zip.entries[i].name == BepInEx.CoreDll
    requires j < |zip.entries| && WritesFile(zip.entries[j]) && zip.entries[j].name == BepInEx.WinHttpDll
    ensures BepInEx.Validate(InstallFromZip(fs, zip).0) == Ok
    ensures BepInEx.IsBepInstalled(InstallFromZip(fs, zip).0)
  {
    var ex := ExtractAll(fs, zip.entries);
    ExtractAllWrites(fs, zip.entries, i);
    ExtractAllWrites(fs, zip.entries, j);
    PatchConfigFrame(ex, BepInEx.CoreDll);
    PatchConfigFrame(ex, BepInEx.WinHttpDll);
  }

  /**
   * When the archive leaves no config behind, a successful install creates
   * one whose `[Logging]` section turns the listener off.
   */
  lemma InstallCreatesConfig(fs: Fs, zip: Archive)
    requires InstallFromZip(fs, zip).1 == Ok
    requires !Exists(ExtractAll(fs, zip.entries), BepInEx.ConfigPath)
    ensures BepInEx.ConfigPath in InstallFromZip(fs, zip).0.files
    ensures Utf8.Decode(InstallFromZip(fs, zip).0.files[BepInEx.ConfigPath]) == Some(LogConfig.FreshConfig)
  {
    LogConfig.MissingConfigCreated(ExtractAll(fs, zip.entries));
  }

  // ------------------------------------------------------------- the extraction test

  /** The runtime archive of the extraction test, with `version` in `.doorstop_version`. */
  function TestArchive(version: Bytes, other: Bytes): seq<Entry> {
    [ Entry(".doorstop_version", version),
      Entry("doorstop_config.ini", other),
      Entry("changelog.txt", other),
      Entry("winhttp.dll", other),
      Entry("BepInEx/", []),
      Entry("BepInEx/core/", []),
      Entry("BepInEx/core/BepInEx.dll", other),
      Entry("BepInEx/core/BepInEx.Core.xml", other),
      Entry("BepInEx/patchers/", []),
      Entry("BepInEx/plugins/", []),
      Entry("BepInEx/config/", []),
      Entry("dotnet/", []),
      Entry("dotnet/.version", other) ]
  }

  /**
   * The extraction test, files: installing that archive into an empty game
   * directory succeeds and leaves every file it lists, with `.doorstop_version`
   * holding exactly the bytes written to it.
   */
  lemma TestArchiveFiles(version: Bytes, other: Bytes)
    ensures var r := InstallFromZip(Fs(map[], {}), Archive(TestArchive(version, other)));
            && r.1 == Ok
            && ".doorstop_version" in r.0.files && r.0.files[".doorstop_version"] == version
            && "doorstop_config.ini" in r.0.files && "changelog.txt" in r.0.files
            && "winhttp.dll" in r.0.files && "BepInEx/core/BepInEx.dll" in r.0.files
            && "BepInEx/core/BepInEx.Core.xml" in r.0.files
            && "dotnet/.version" in r.0.files && r.0.files["dotnet/.version"] == other
  {
    var es := TestArchive(version, other);
    var fs := Fs(map[], {});
    TestArchiveReadable(version, other);
    TestArchiveVersionWriter(version, other);
    InstallKeepsEntryData(fs, Archive(es), ".doorstop_version");
    assert WritesFile(es[12]);
    InstallKeepsEntryData(fs, Archive(es), "dotnet/.version");
    TestArchiveOtherFiles(version, other);
  }

  /** The other files of the extraction test exist after the install. */
  lemma TestArchiveOtherFiles(version: Bytes, other: Bytes)
    ensures var r := InstallFromZip(Fs(map[], {}), Archive(TestArchive(version, other)));
            && "doorstop_config.ini" in r.0.files && "changelog.txt" in r.0.files
            && "winhttp.dll" in r.0.files && "BepInEx/core/BepInEx.dll" in r.0.files
            && "BepInEx/core/BepInEx.Core.xml" in r.0.files
  {
    var es := TestArchive(version, other);
    TestArchiveReadable(version, other);
    InstallWritesFiles(Fs(map[], {}), Archive(es));
    assert WritesFile(es[1]) && WritesFile(es[2]) && WritesFile(es[3]);
    assert WritesFile(es[6]) && WritesFile(es[7]);
  }

  /** The extraction test, layout: the BepInEx directories are made. */
  lemma TestArchiveLayout(version: Bytes, other: Bytes)
    ensures var r := InstallFromZip(Fs(map[], {}), Archive(TestArchive(version, other)));
            && "BepInEx/core" in r.0.dirs && "BepInEx/patchers" in r.0.dirs
            && "BepInEx/plugins" in r.0.dirs && "BepInEx/config" in r.0.dirs
  {
    TestArchiveDir(version, other, 5, "BepInEx/core");
    TestArchiveDir(version, other, 8, "BepInEx/patchers");
    TestArchivePluginsConfig(version, other);
  }

  /** The plugins and config directories of the extraction test. */
  lemma TestArchivePluginsConfig(version: Bytes, other: Bytes)
    ensures var r := InstallFromZip(Fs(map[], {}), Archive(TestArchive(version, other)));
            "BepInEx/plugins" in r.0.dirs && "BepInEx/config" in r.0.dirs
  {
    TestArchiveDir(version, other, 9, "BepInEx/plugins");
    TestArchiveDir(version, other, 10, "BepInEx/config");
  }

  /** The extraction test, top level: the `BepInEx` and `dotnet` directories are made. */
  lemma TestArchiveTopDirs(version: Bytes, other: Bytes)
    ensures var r := InstallFromZip(Fs(map[], {}), Archive(TestArchive(version, other)));
            "BepInEx" in r.0.dirs && "dotnet" in r.0.dirs
  {
    TestArchiveDir(version, other, 4, "BepInEx");
    TestArchiveDir(version, other, 11, "dotnet");
  }

  /** The extraction test, detection: the result validates and reads as installed. */
  lemma TestArchiveDetected(version: Bytes, other: Bytes)
    ensures var r := InstallFromZip(Fs(map[], {}), Archive(TestArchive(version, other)));
            && BepInEx.IsBepInstalled(r.0) && BepInEx.DetectStatus(r.0) == "Installed"
            && BepInEx.Validate(r.0) == Ok
  {
    TestArchiveOtherFiles(version, other);
  }

  lemma TestArchiveReadable(version: Bytes, other: Bytes)
    ensures InstallFromZip(Fs(map[], {}), Archive(TestArchive(version, other))).1 == Ok
  {
    assert AllReadable(TestArchive(version, other));
  }

  /** No entry after the first writes `.doorstop_version`. */
  lemma TestArchiveVersionWriter(version: Bytes, other: Bytes)
    ensures LastWrite(TestArchive(version, other), ".doorstop_version") == Some(0)
  {
    var es := TestArchive(version, other);
    assert forall j | 0 < j < 13 :: es[j].name != ".doorstop_version" by {
      forall j | 0 < j < 13 ensures es[j].name != ".doorstop_version" {
        assert es[j].name[0] != '.' || |es[j].name| != 17;
      }
    }
    assert WritesFile(es[0]);
  }

  /** Entry `k` of the test archive is the directory `dir`, which the install makes. */
  lemma TestArchiveDir(version: Bytes, other: Bytes, k: nat, dir: string)
    requires k < 13 && TestArchive(version, other)[k] == Entry(dir + "/", [])
    requires dir != "" && dir[|dir| - 1] != '/'
    ensures dir in InstallFromZip(Fs(map[], {}), Archive(TestArchive(version, other))).0.dirs
  {
    TestArchiveReadable(version, other);
    InstallMakesDirs(Fs(map[], {}), Archive(TestArchive(version, other)), k);
    var name := dir + "/";
    assert IsDirName(name);
    assert name[..|dir|] == dir;
  }
}
