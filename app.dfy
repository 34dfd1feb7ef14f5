/**
 * The manager's state and the handlers that change it: the single-flight
 * background install with its result slot, the readiness poller's flag,
 * choosing the game directory, the tabs, dropped files and uninstalling.
 *
 * Each handler of `AppState` is proved to move `State()` as one of the
 * transition functions on `View` says; the lemmas about those functions
 * state the single-flight rule and the invariant `Valid`. `disk` is always
 * the content of the directory `gameDir` names.
 */
module App {
  import opened Common
  import opened FileSystem
  import opened Types
  import opened Zip
  import Text
  import Paths
  import Utf8
  import PathMapper
  import BepInEx
  import RuntimeInstall
  import ModInstall
  import Uninstall

  /** What a background install was started for. */
  datatype Job = LatestRelease | FromUrl(url: string) | FromZipFile(path: string)

  /** The result slot shared with a background install: still running, or finished. */
  datatype Slot = Pending(job: Job) | Done(result: Outcome)

  /** Every field of `AppState` the model keeps. */
  datatype View = View(
    gameDir: string,
    bepStatus: string,
    mods: ModIndex,
    customBepUrl: string,
    isBusy: bool,
    currentTab: Tab,
    bepReady: bool,
    pollerFlag: Option<bool>,
    installTask: Option<Slot>)

  const DefaultGameDir := "C:\\Program Files (x86)\\Steam\\steamapps\\common\\Restaurats"

  /** `AppState::default()`. */
  const Initial: View := View(DefaultGameDir, "", EmptyIndex, "", false, GettingStarted, false, None, None)

  /** Busy exactly while a background install holds the result slot. */
  predicate Valid(v: View) {
    v.isBusy <==> v.installTask.Some?
  }

  // ------------------------------------------------------------- transitions

  /** The start of a background install: refused while busy. */
  function Started(v: View, job: Job): View {
    if v.isBusy then v else v.(isBusy := true, installTask := Some(Pending(job)))
  }

  /** The "Install from URL" button: the trimmed URL, when there is one, starts an install. */
  function UrlClicked(v: View): View {
    var url := Text.Trim(v.customBepUrl);
    if url != "" then Started(v, FromUrl(url)) else v
  }

  /** The "Install from ZIP..." button; it is enabled only while not busy. */
  function ZipPicked(v: View, picked: Option<string>): View {
    match picked
    case None => v
    case Some(path) => v.(isBusy := true, installTask := Some(Pending(FromZipFile(path))))
  }

  /**
   * What the install thread reports for `fetched`: the downloaded or read
   * archive as the zip reader sees it, or the error getting its bytes. The
   * installation is validated only when extraction succeeded.
   */
  function WorkerRun(fs: Fs, fetched: Result<Archive>): (Fs, Outcome) {
    match fetched
    case Failure(msg) => (fs, Err(msg))
    case Success(zip) =>
      var (fs1, r) := RuntimeInstall.InstallFromZip(fs, zip);
      if r.Err? then (fs1, r) else (fs1, BepInEx.Validate(fs1))
  }

  /**
   * Taking a finished result: the slot is cleared and the manager is no
   * longer busy; on success the status and readiness are read again, and a
   * poller is started when BepInEx is not yet ready.
   */
  function Taken(v: View, fs: Fs): View {
    match v.installTask
    case Some(Done(res)) =>
      var v1 := v.(isBusy := false, installTask := None);
      if res.Err? then v1
      else
        var ready := BepInEx.IsBepInstalled(fs);
        v1.(bepStatus := BepInEx.DetectStatus(fs), bepReady := ready,
            pollerFlag := if ready then v.pollerFlag else Some(false))
    case _ => v
  }

  /** The poller thread: it raises its flag once BepInEx is installed. */
  function Polled(v: View, fs: Fs): View {
    if v.pollerFlag == Some(false) && BepInEx.IsBepInstalled(fs) then v.(pollerFlag := Some(true)) else v
  }

  /** A raised poller flag makes the manager ready and drops the poller. */
  function PollerChecked(v: View, fs: Fs): View {
    if !v.bepReady && v.pollerFlag == Some(true) then
      v.(bepReady := true, bepStatus := BepInEx.DetectStatus(fs), pollerFlag := None)
    else v
  }

  /** Opening a game directory, at start-up or from the folder picker: its state is read. */
  function Opened(v: View, dir: string, fs: Fs): View {
    v.(gameDir := dir, mods := BepInEx.LoadIndex(fs), bepStatus := BepInEx.DetectStatus(fs),
       bepReady := BepInEx.IsBepInstalled(fs))
  }

  /** Selecting a tab: the mods tab only once BepInEx is ready. */
  function TabSelected(v: View, tab: Tab): View {
    if tab == Mods && !v.bepReady then v else v.(currentTab := tab)
  }

  /** The getting-started tab fills in an empty status. */
  function StatusShown(v: View, fs: Fs): View {
    if v.bepStatus == "" then v.(bepStatus := BepInEx.DetectStatus(fs)) else v
  }

  /** Files dropped on the window are handled only while idle and once BepInEx is ready. */
  predicate AcceptsDrops(v: View, dropped: seq<ModInstall.DroppedFile>) {
    |dropped| > 0 && !v.isBusy && v.bepReady
  }

  /** One frame of `update`: the poller flag, then the result slot, then dropped files. */
  function Frame(v: View, fs: Fs, dropped: seq<ModInstall.DroppedFile>,
                 read: string -> Option<ModInstall.Manifest>): (View, Fs)
  {
    var v1 := Taken(PollerChecked(v, fs), fs);
    if AcceptsDrops(v1, dropped) then
      var r := ModInstall.DropAll(fs, v1.mods.mods, dropped, read);
      (v1.(mods := ModIndex(r.1)), r.0)
    else (v1, fs)
  }

  // ------------------------------------------------------------- properties

  /** The initial state is idle, not ready, on the first tab, with no records. */
  lemma InitialState()
    ensures Valid(Initial)
    ensures !Initial.isBusy && Initial.installTask.None? && Initial.pollerFlag.None?
    ensures !Initial.bepReady && Initial.currentTab == GettingStarted && Initial.mods.mods == []
  {
  }

  /**
   * Single flight: starting while busy changes nothing, so a second start
   * before the result is taken keeps the first job; from an idle state a
   * start makes the manager busy with the job pending.
   */
  lemma SingleFlight(v: View, first: Job, second: Job)
    requires Valid(v) && !v.isBusy
    ensures Started(v, first).isBusy && Started(v, first).installTask == Some(Pending(first))
    ensures Started(Started(v, first), second) == Started(v, first)
    ensures UrlClicked(Started(v, first)) == Started(v, first)
  {
  }

  /** Taking a finished result always clears the slot and the busy flag; a pending one is left. */
  lemma TakenClears(v: View, fs: Fs)
    ensures v.installTask.Some? && v.installTask.value.Done? ==>
      !Taken(v, fs).isBusy && Taken(v, fs).installTask.None?
    ensures v.installTask.Some? && v.installTask.value.Pending? ==> Taken(v, fs) == v
    ensures v.installTask == Some(Done(Ok)) ==>
      (Taken(v, fs).bepReady <==> BepInEx.IsBepInstalled(fs))
  {
  }

  /** Every transition keeps the manager busy exactly while the slot is held. */
  lemma TransitionsValid(v: View, fs: Fs, job: Job, picked: Option<string>, dir: string, tab: Tab)
    requires Valid(v)
    ensures Valid(Started(v, job)) && Valid(UrlClicked(v)) && Valid(Taken(v, fs))
    ensures Valid(Polled(v, fs)) && Valid(PollerChecked(v, fs)) && Valid(Opened(v, dir, fs))
    ensures Valid(TabSelected(v, tab)) && Valid(StatusShown(v, fs))
    ensures !v.isBusy ==> Valid(ZipPicked(v, picked))
  {
  }

  /**
   * A successful background install leaves a validated layout: a core
   * library and the `winhttp.dll` loader are present.
   */
  lemma WorkerOk(fs: Fs, fetched: Result<Archive>)
    requires WorkerRun(fs, fetched).1 == Ok
    ensures var fs1 := WorkerRun(fs, fetched).0;
            (Exists(fs1, BepInEx.CoreDll) || Exists(fs1, BepInEx.CoreAltDll)) && Exists(fs1, BepInEx.WinHttpDll)
  {
  }

  /**
   * The readiness poller: once started after an install that left BepInEx
   * not ready, its flag is raised when BepInEx appears, and the next frame
   * makes the manager ready. Its flag is then gone.
   */
  lemma PollerMakesReady(v: View, fs: Fs)
    requires v.pollerFlag == Some(false) && !v.bepReady && BepInEx.IsBepInstalled(fs)
    ensures var w := PollerChecked(Polled(v, fs), fs);
            w.bepReady && w.bepStatus == "Installed" && w.pollerFlag.None?
  {
  }

  /** A frame handles dropped files exactly when it ends idle and ready; otherwise the disk is untouched. */
  lemma FrameDrops(v: View, fs: Fs, dropped: seq<ModInstall.DroppedFile>,
                   read: string -> Option<ModInstall.Manifest>)
    requires Valid(v)
    ensures var (w, fs1) := Frame(v, fs, dropped, read);
            && Valid(w)
            && w.(mods := v.mods) == Taken(PollerChecked(v, fs), fs)
            && (!AcceptsDrops(Taken(PollerChecked(v, fs), fs), dropped) ==> fs1 == fs && w.mods == v.mods)
            && (UniqueIds(v.mods.mods) ==> UniqueIds(w.mods.mods))
  {
    var v1 := Taken(PollerChecked(v, fs), fs);
    if AcceptsDrops(v1, dropped) && UniqueIds(v.mods.mods) {
      ModInstall.DropAllUnique(fs, v1.mods.mods, dropped, read);
    }
  }

  // ------------------------------------------------------------- the passes of the archive installer

  /** The metadata pass: the first unreadable entry or non-UTF-8 manifest ends it. */
  method ReadMetadata(es: seq<Entry>, read: string -> Option<ModInstall.Manifest>)
    returns (r: Result<ModInstall.Meta>)
    ensures r == ModInstall.MetaFrom(ModInstall.NoMeta, es, read)
  {
    var modName: Option<string> := None;
    var modVersion: Option<string> := None;
    var i := 0;
    while i < |es|
      invariant 0 <= i <= |es|
      invariant ModInstall.MetaFrom(ModInstall.Meta(modName, modVersion), es[i..], read) ==
                ModInstall.MetaFrom(ModInstall.NoMeta, es, read)
    {
      var e := es[i];
      assert es[i..][1..] == es[i + 1..];
      if e.Corrupt? {
        return Failure(e.reason);
      }
      if ModInstall.IsManifestName(e.name) {
        var text := Utf8.Decode(e.data);
        if text.None? {
          return Failure(Utf8.NotUtf8Msg);
        }
        var mani := read(text.value);
        if mani.Some? {
          modName := mani.value.name.Or(modName);
          modVersion := mani.value.versionNumber.Or(mani.value.version).Or(modVersion);
        }
      }
      i := i + 1;
    }
    assert es[i..] == [];
    r := Success(ModInstall.Meta(modName, modVersion));
  }

  /** The mapped pass: it returns the paths it wrote, in archive order. */
  method WriteMapped(disk: Disk, es: seq<Entry>) returns (installed: seq<Path>)
    requires AllReadable(es)
    modifies disk
    ensures disk.State() == ModInstall.MapAll(old(disk.State()), es)
    ensures installed == ModInstall.Recorded(es)
  {
    installed := [];
    var i := 0;
    while i < |es|
      invariant 0 <= i <= |es| && AllReadable(es[..i])
      invariant disk.State() == ModInstall.MapAll(old(disk.State()), es[..i])
      invariant installed == ModInstall.Recorded(es[..i])
    {
      var e := es[i];
      assert es[..i + 1][..i] == es[..i];
      var dest := PathMapper.MapEntry(e.name);
      if dest.Some? {
        var rel := dest.value;
        if PathMapper.EndsWithSlash(e.name) {
          disk.CreateDirAll(rel);
        } else {
          disk.CreateDirAll(Paths.Parent(rel));
          disk.WriteFile(rel, e.data);
          installed := installed + [rel];
        }
      }
      i := i + 1;
    }
    assert es[..i] == es;
  }

  /** The fallback pass: each library goes straight into the plugins directory. */
  method WriteFallback(disk: Disk, es: seq<Entry>) returns (installed: seq<Path>)
    requires AllReadable(es)
    modifies disk
    ensures disk.State() == ModInstall.FallbackAll(old(disk.State()), es)
    ensures installed == ModInstall.FallbackRecorded(es)
  {
    installed := [];
    var i := 0;
    while i < |es|
      invariant 0 <= i <= |es|
      invariant disk.State() == ModInstall.FallbackAll(old(disk.State()), es[..i])
      invariant installed == ModInstall.FallbackRecorded(es[..i])
    {
      ModInstall.FallbackPrefixStep(old(disk.State()), es, i);
      var rec := WriteFlat(disk, es[i]);
      installed := installed + rec;
      i := i + 1;
    }
    assert es[..i] == es;
  }

  /**
   * One entry of the fallback loop: a library is copied to
   * `BepInEx/plugins/<file name>` and that path is recorded; any other
   * entry is skipped.
   */
  method WriteFlat(disk: Disk, e: Entry) returns (rec: seq<Path>)
    requires e.Entry?
    modifies disk
    ensures disk.State() == ModInstall.FallbackStep(old(disk.State()), e)
    ensures rec == ModInstall.FallbackRecordOf(e)
  {
    rec := [];
    if !PathMapper.EndsWithSlash(e.name) && Text.EndsWith(Text.Lower(e.name), ".dll") {
      ModInstall.LooseDllFileName(e.name);
      var outpath := PathMapper.JoinPath(BepInEx.PluginsDir, Paths.FileName(e.name).value);
      disk.WriteFile(outpath, e.data);
      ModInstall.FlatTargetName(e.name);
      rec := ["BepInEx/plugins/" + Paths.FileName(outpath).value];
    }
  }

  // ------------------------------------------------------------- the application object

  class AppState {
    var gameDir: string
    var bepStatus: string
    var mods: ModIndex
    var customBepUrl: string
    var isBusy: bool
    var currentTab: Tab
    var bepReady: bool
    var pollerFlag: Option<bool>
    var installTask: Option<Slot>

    function State(): View
      reads this
    {
      View(gameDir, bepStatus, mods, customBepUrl, isBusy, currentTab, bepReady, pollerFlag, installTask)
    }

    /** `AppState::default()`. */
    constructor ()
      ensures State() == Initial
    {
      gameDir := DefaultGameDir;
      bepStatus := "";
      mods := EmptyIndex;
      customBepUrl := "";
      isBusy := false;
      currentTab := GettingStarted;
      bepReady := false;
      pollerFlag := None;
      installTask := None;
    }

    /** Opening the game directory `dir`, whose content is `disk`. */
    method OpenGameDir(dir: string, disk: Disk)
      modifies this
      ensures State() == Opened(old(State()), dir, disk.State())
    {
      gameDir := dir;
      mods := BepInEx.LoadIndex(disk.State());
      bepStatus := BepInEx.DetectStatus(disk.State());
      bepReady := BepInEx.IsBepInstalled(disk.State());
    }

    /** Typing a directory into the text field changes only the path; nothing is read. */
    method EditGameDir(text: string)
      modifies this
      ensures State() == old(State()).(gameDir := text)
    {
      gameDir := text;
    }

    /** The two starters of a background install, which differ only in their job. */
    method StartInstall(job: Job)
      modifies this
      ensures State() == Started(old(State()), job)
    {
      if isBusy {
        return;
      }
      isBusy := true;
      installTask := Some(Pending(job));
    }

    method ClickInstallFromUrl()
      modifies this
      ensures State() == UrlClicked(old(State()))
    {
      if Text.Trim(customBepUrl) != "" {
        var url := Text.Trim(customBepUrl);
        StartInstall(FromUrl(url));
      }
    }

    /** The archive chosen in the file dialog (none when it was cancelled). */
    method ClickInstallFromZip(picked: Option<string>)
      requires !isBusy
      modifies this
      ensures State() == ZipPicked(old(State()), picked)
    {
      if picked.Some? {
        isBusy := true;
        installTask := Some(Pending(FromZipFile(picked.value)));
      }
    }

    /** The install thread finishing: it leaves its result in the slot. */
    method RunWorker(disk: Disk, fetched: Result<Archive>)
      requires installTask.Some? && installTask.value.Pending?
      modifies this, disk
      ensures (disk.State(), installTask) ==
        (WorkerRun(old(disk.State()), fetched).0, Some(Done(WorkerRun(old(disk.State()), fetched).1)))
      ensures State() == old(State()).(installTask := installTask)
    {
      var res: Outcome;
      if fetched.Failure? {
        res := Err(fetched.error);
      } else {
        res := RuntimeInstall.InstallBepInExFromZipBytes(disk, fetched.value);
        if res.Ok? {
          res := BepInEx.Validate(disk.State());
        }
      }
      installTask := Some(Done(res));
    }

    method TakeTaskResult(disk: Disk)
      modifies this
      ensures State() == Taken(old(State()), disk.State())
    {
      if installTask.Some? && installTask.value.Done? {
        var res := installTask.value.result;
        isBusy := false;
        if res.Ok? {
          bepStatus := BepInEx.DetectStatus(disk.State());
          bepReady := BepInEx.IsBepInstalled(disk.State());
          if !bepReady {
            pollerFlag := Some(false);
          }
        }
        installTask := None;
      }
    }

    /** One look of the poller thread at the game directory. */
    method PollOnce(disk: Disk)
      modifies this
      ensures State() == Polled(old(State()), disk.State())
    {
      if pollerFlag == Some(false) && BepInEx.IsBepInstalled(disk.State()) {
        pollerFlag := Some(true);
      }
    }

    method CheckPoller(disk: Disk)
      modifies this
      ensures State() == PollerChecked(old(State()), disk.State())
    {
      if !bepReady && pollerFlag == Some(true) {
        bepReady := true;
        bepStatus := BepInEx.DetectStatus(disk.State());
        pollerFlag := None;
      }
    }

    method SelectTab(tab: Tab)
      modifies this
      ensures State() == TabSelected(old(State()), tab)
    {
      if tab == GettingStarted || bepReady {
        currentTab := tab;
      }
    }

    method ShowStatus(disk: Disk)
      modifies this
      ensures State() == StatusShown(old(State()), disk.State())
    {
      if bepStatus == "" {
        bepStatus := BepInEx.DetectStatus(disk.State());
      }
    }

    /** `install_mod_from_zip_path`, for the archive at `zipPath` as the zip reader sees it. */
    method InstallModFromZipPath(disk: Disk, zipPath: string, zip: Archive,
                                 read: string -> Option<ModInstall.Manifest>) returns (r: Outcome)
      modifies this, disk
      ensures var spec := ModInstall.InstallMod(old(disk.State()), old(mods.mods), zipPath, zip, read);
              disk.State() == spec.0 && State() == old(State()).(mods := ModIndex(spec.1)) && r == spec.2
    {
      BepInEx.EnsureDirs(disk);
      if zip.NotAZip? {
        return Err(zip.reason);
      }
      var es := zip.entries;
      var meta := ReadMetadata(es, read);
      if meta.Failure? {
        return Err(meta.error);
      }
      ModInstall.MetaFromSucceeds(ModInstall.NoMeta, es, read);
      var installed := WriteMapped(disk, es);
      if installed == [] {
        installed := WriteFallback(disk, es);
      }
      if installed == [] {
        return Err(ModInstall.NothingInstallable);
      }
      var id := Paths.FileStem(zipPath).GetOr(ModInstall.DefaultId);
      var entry := ModEntry(id, meta.value.name.GetOr(id), meta.value.version, Some(zipPath), installed);
      mods := ModIndex(ModInstall.WithoutId(mods.mods, entry.id) + [entry]);
      BepInEx.SaveIndexTo(disk, mods);
      r := Ok;
    }

    /** A dropped library at `path`; `copied` is what the copy reads, none when it fails. */
    method DropDll(disk: Disk, path: string, copied: Option<Bytes>)
      requires Paths.FileName(path).Some?
      modifies this, disk
      ensures var spec := ModInstall.DropDll(old(disk.State()), old(mods.mods), path, copied);
              disk.State() == spec.0 && State() == old(State()).(mods := ModIndex(spec.1))
    {
      var dest := ModInstall.FlatTarget(path);
      disk.CreateDirAll(Paths.Parent(dest));
      if copied.Some? {
        disk.WriteFile(dest, copied.value);
        mods := ModIndex(ModInstall.ReplaceById(mods.mods, ModInstall.DllEntry(path)));
        BepInEx.SaveIndexTo(disk, mods);
      }
    }

    /** The dropped-file block of `update`. */
    method HandleDroppedFiles(disk: Disk, dropped: seq<ModInstall.DroppedFile>,
                              read: string -> Option<ModInstall.Manifest>)
      modifies this, disk
      ensures AcceptsDrops(old(State()), dropped) ==>
        var spec := ModInstall.DropAll(old(disk.State()), old(mods.mods), dropped, read);
        disk.State() == spec.0 && State() == old(State()).(mods := ModIndex(spec.1))
      ensures !AcceptsDrops(old(State()), dropped) ==>
        disk.State() == old(disk.State()) && State() == old(State())
    {
      if |dropped| > 0 && !isBusy {
        if bepReady {
          var k := 0;
          while k < |dropped|
            invariant 0 <= k <= |dropped|
            invariant (disk.State(), mods.mods) == ModInstall.DropAll(old(disk.State()), old(mods.mods), dropped[..k], read)
            invariant State() == old(State()).(mods := mods)
          {
            var f := dropped[k];
            assert dropped[..k + 1][..k] == dropped[..k];
            if f.path.Some? {
              var path := f.path.value;
              var isZip := ModInstall.HasExtension(path, "zip");
              var isDll := ModInstall.HasExtension(path, "dll");
              if isZip {
                var _ := InstallModFromZipPath(disk, path, f.archive, read);
              } else if isDll {
                DropDll(disk, path, f.copied);
              }
            }
            k := k + 1;
          }
          assert dropped[..k] == dropped;
        }
      }
    }

    /** One frame of `update`, leaving out drawing. */
    method Update(disk: Disk, dropped: seq<ModInstall.DroppedFile>,
                  read: string -> Option<ModInstall.Manifest>)
      modifies this, disk
      ensures (State(), disk.State()) == Frame(old(State()), old(disk.State()), dropped, read)
    {
      CheckPoller(disk);
      TakeTaskResult(disk);
      HandleDroppedFiles(disk, dropped, read);
    }

    /** `uninstall_mod`. */
    method UninstallMod(disk: Disk, idx: nat)
      modifies this, disk
      ensures var spec := Uninstall.UninstallMod(old(disk.State()), old(mods.mods), idx);
              disk.State() == spec.0 && State() == old(State()).(mods := ModIndex(spec.1))
    {
      if idx >= |mods.mods| {
        return;
      }
      var m := mods.mods[idx];
      var k := 0;
      while k < |m.installedFiles|
        invariant 0 <= k <= |m.installedFiles|
        invariant disk.State() == Uninstall.RemoveListed(old(disk.State()), m.installedFiles[..k])
        modifies disk
      {
        var p := m.installedFiles[k];
        assert m.installedFiles[..k + 1][..k] == m.installedFiles[..k];
        if Exists(disk.State(), p) {
          disk.RemoveFile(p);
        }
        k := k + 1;
      }
      assert m.installedFiles[..k] == m.installedFiles;
      disk.RemoveEmptyDirsBelow(Uninstall.BepInExDir);
      mods := ModIndex(Uninstall.RemoveAt(mods.mods, idx));
      BepInEx.SaveIndexTo(disk, mods);
    }
  }
}
