# Restaurats mod manager: installation and tracking engine

This project models the core of a small desktop mod manager for the game
Restaurats. The manager installs the BepInEx plugin loader into the game
directory and installs mods from zip archives or loose `.dll` files. It also
keeps a manifest of which files each mod owns, so that those files can be
uninstalled again.

The model covers:

- where an archive entry lands in the game directory (the path mapper);
- the three passes of the mod installer: metadata, then mapped extraction, then the fallback that flattens `.dll` files;
- replacing a mod's record by its id;
- uninstalling a mod: record removal, file deletion and pruning of empty directories;
- extracting and validating a BepInEx runtime archive;
- the line-oriented rewrite of `UnityLogListening` in `BepInEx.cfg`;
- the manager's `AppState`: the single-flight install task slot, the readiness poller flag, tabs, the game directory and dropped files.

The game directory is an abstract tree `FileSystem.Fs`: a map from relative
path to bytes plus a set of directories. The class `FileSystem.Disk` holds
that tree and is changed in place. A zip archive is its ordered sequence of
entries, `Zip.Entry(name, data)`. An entry the reader cannot open is
`Zip.Corrupt(reason)`, and an archive that cannot be opened at all is
`Zip.NotAZip(reason)`.

Each imperative handler is proved against a specification function:

- `App.AppState` methods ensure `State() == Transition(old(State()), ...)`;
- the `Disk` methods ensure the new tree is a given function of the old one.

The lemmas beside those functions state what the manager promises.

Modules, one file each:

- `Common`: bytes, `Option`, `Result`, `Outcome`.
- `Text`: ASCII lower-casing, trimming, Rust's `str::lines`.
- `Utf8`: UTF-8 encoding and decoding, with a round trip.
- `Paths`: `file_name`, `file_stem`, `extension` and `parent` of `/`-separated paths.
- `FileSystem`: the tree and the class `Disk`.
- `Types`: `ModEntry` and `ModIndex`.
- `Zip`: the archive model.
- `IndexCodec`: the manifest's text form, with a round trip.
- `BepInEx`: paths, index load and save, detection, validation.
- `LogConfig`: the `BepInEx.cfg` patch.
- `RuntimeInstall`: BepInEx extraction.
- `PathMapper`: the archive-entry mapper.
- `ModInstall`: mod installation and dropped files.
- `Uninstall`: mod removal.
- `App`: the application state and its handlers.

## Model

| member | source | states |
|---|---|---|
| `PathMapper.BeforeSeparator` | src/main.rs:320-323 | the result is the longest prefix of the entry that contains no ':' and no '*'; the character after it, when there is one, is a separator |
| `PathMapper.MapDirectory` | src/main.rs:316-318 | an entry whose name ends in '/' maps to exactly its own name, whatever else it contains |
| `PathMapper.MapNestedPlugins` | src/main.rs:319-325 | a file entry whose lower-cased name contains `bepinex/plugins/` maps to the prefix of its original name before the first ':' or '*'; that is the whole name when neither occurs |
| `PathMapper.MapPluginsPrefix` | src/main.rs:326-328 | failing the earlier rules, a name starting with `plugins/` in any letter case maps to `BepInEx/plugins/` followed by the rest of the name; a rest starting with '/' is taken as absolute by `join` |
| `PathMapper.MapBepInExPrefix` | src/main.rs:329-331 | failing the earlier rules, a name starting with `bepinex/` in any letter case maps to itself |
| `PathMapper.MapNone` | src/main.rs:314-333 | an entry maps to nothing exactly when none of the four rules applies |
| `PathMapper.MapCaseInsensitive` | src/main.rs:315 | whether an entry maps at all depends only on its lower-cased name |
| `PathMapper.MapRuleOrder` | src/main.rs:316-328 | the directory rule is tried before the `plugins/` rewrite, so `plugins/sub/` stays as it is |
| `PathMapper.LowerEndsWithSlash` | src/main.rs:315-316 | lower-casing neither creates nor removes a trailing '/' |
| `ModInstall.MetaFromSucceeds` | src/main.rs:51-68 | the metadata pass fails exactly when some entry cannot be opened, or a `manifest.json` entry is not UTF-8 text; success implies every entry can be read |
| `ModInstall.MetaFromName` | src/main.rs:63-65 | after the pass a mod name is known exactly when it was known before or some readable manifest supplies one |
| `ModInstall.RecordedMembers` | src/main.rs:70-87 | a path is recorded by the mapped pass exactly when it is the mapped destination of some mapped non-directory entry |
| `ModInstall.RecordedAppend` | src/main.rs:84 | the recorded list grows in archive order: the record for `a + b` is the record for `a` followed by the record for `b` |
| `ModInstall.RecordedEmpty` | src/main.rs:74-86 | the mapped pass records nothing exactly when no entry is a mapped file; directory entries are never recorded |
| `ModInstall.MapAllGrows` | src/main.rs:70-87 | the mapped pass never removes a file or a directory |
| `ModInstall.MapAllEffects` | src/main.rs:75-85 | after the mapped pass every mapped file's destination exists, and every mapped directory entry's directories exist |
| `ModInstall.MapAllContent` | src/main.rs:78-85 | a mapped file entry's destination holds the entry's bytes after the pass, unless a later mapped file entry is copied to the same path |
| `ModInstall.LooseDllFileName` | src/main.rs:94-96 | a non-directory entry ending in `.dll` always has a file name, its last path segment, so the `unwrap` cannot fail |
| `ModInstall.FlatTargetName` | src/main.rs:95-101 | the flattened destination is `BepInEx/plugins/` plus the entry's file name; that file name survives the join, and its parent is the plugins directory |
| `ModInstall.FallbackEffects` | src/main.rs:89-105 | every path the fallback pass records exists afterwards and is `BepInEx/plugins/<last segment>` of some loose `.dll` entry |
| `ModInstall.FallbackRecordsEach` | src/main.rs:92-103 | conversely, every loose `.dll` entry is recorded as `BepInEx/plugins/<last segment>`: none is missed |
| `ModInstall.FallbackContent` | src/main.rs:94-98 | `BepInEx/plugins/<last segment>` holds a loose `.dll` entry's bytes after the pass, unless a later `.dll` entry has the same file name |
| `ModInstall.FallbackStepWrites` | src/main.rs:95-98 | one fallback step writes the library's bytes at `BepInEx/plugins/<last segment>` and changes nothing else |
| `ModInstall.FallbackEmpty` | src/main.rs:94 | the fallback pass records nothing exactly when the archive has no non-directory `.dll` entry |
| `ModInstall.DeployEmpty` | src/main.rs:89-109 | installation records nothing, and so fails, exactly when there is neither a mapped file entry nor a loose `.dll` entry; the fallback runs only when the mapped pass recorded nothing |
| `ModInstall.DeployRecordsFiles` | src/main.rs:70-105 | every path recorded in `installed_files` exists on disk after the passes |
| `ModInstall.WithoutId` | src/main.rs:123 | `retain` leaves no record with the id and keeps only records that were there |
| `ModInstall.WithoutIdAppend` | src/main.rs:123 | `retain` works record by record: on `a + b` it is `retain` on `a` followed by `retain` on `b` |
| `ModInstall.WithoutIdNone` | src/main.rs:123 | `retain` of an id no record has changes nothing |
| `ModInstall.WithoutIdUnique` | src/main.rs:123 | `retain` keeps ids unique |
| `ModInstall.WithoutIdSingle` | src/main.rs:123 | `retain` on one record drops it exactly when its id matches |
| `ModInstall.ReplaceByIdSpec` | src/main.rs:123-124 | after `retain` then `push`, the new record is last and is the only one with its id; the records with other ids are those of before, in the same order; unique ids stay unique |
| `ModInstall.InstallOutcome` | src/main.rs:41-128 | a zip install succeeds exactly when the archive opens, every entry is readable, no manifest entry fails to decode, and some entry is a mapped file or a loose `.dll`; on failure the records are unchanged |
| `ModInstall.InstallReplaces` | src/main.rs:111-125 | after a successful zip install the last record has the zip's file stem (or `mod`) as id and the zip path as source, lists a non-empty set of files that all exist, and is the only record with that id; the records with other ids keep their order, and unique ids stay unique |
| `ModInstall.InstallNameFallback` | src/main.rs:118 | when no manifest names the mod, the new record's name is its id |
| `ModInstall.AsWrittenDropDuplicates` | src/main.rs:401-418 | the loose-DLL drop as written: dropping the same library twice leaves two records with the same id |
| `ModInstall.DropDllSpec` | src/main.rs:393-424 | a copied library lands at `BepInEx/plugins/<file name>` with its bytes and becomes the last record, listing just that file, with a replaced record of the same id; a failed copy leaves the records unchanged; unique ids stay unique |
| `ModInstall.DropAllUnique` | src/main.rs:377-429 | handling a batch of dropped files, in order, with the corrected drop (replace by id), keeps ids unique; the drop as written does not, see `ModInstall.AsWrittenDropDuplicates` |
| `Uninstall.RemoveListedSpec` | src/main.rs:136-142 | the deletion loop removes exactly the listed paths that are files; every other file keeps its content, and directories are untouched |
| `Uninstall.RemoveAtSpec` | src/main.rs:153 | `remove(idx)` shortens the list by one, keeps the records before and after `idx` in order, and keeps ids unique |
| `Uninstall.UninstallFiles` | src/main.rs:130-154 | apart from the manifest, uninstalling deletes exactly the files the record lists and leaves every other file's content as it was |
| `Uninstall.UninstallDirs` | src/main.rs:143-152 | the only directories removed lie below `BepInEx` and were empty once the files were deleted; the only directory added is `BepInEx` itself, by `save_index` |
| `Uninstall.UninstallRecords` | src/main.rs:153 | the record at `idx` goes and the others keep their order and unique ids |
| `RuntimeInstall.InstallBepInExFromZipBytes` | src/bepinex.rs:123-153 | the extraction loop changes the disk exactly as `InstallFromZip` says and returns its outcome; the log-config step in it is the corrected `LogConfig.PatchConfig` |
| `RuntimeInstall.InstallOutcome` | src/bepinex.rs:123-153 | runtime installation succeeds exactly when the archive opens and every entry is readable; an unopenable archive changes nothing; a failed log-config patch never turns success into an error |
| `RuntimeInstall.FirstCorruptAt` | src/bepinex.rs:127-128 | extraction stops at the first entry that cannot be read |
| `RuntimeInstall.LastWrite` | src/bepinex.rs:138-148 | names the last file entry that writes a given path, or reports that none does |
| `RuntimeInstall.ExtractAllFiles` | src/bepinex.rs:127-149 | after extraction a path is a file exactly when it was one or some file entry writes it; its content is then that of the last entry writing it, or else its old content |
| `RuntimeInstall.ExtractAllDirs` | src/bepinex.rs:132-145 | extraction adds exactly the directories of directory entries and the parents of file entries; entries with an empty name add nothing |
| `RuntimeInstall.ExtractAllIdempotent` | src/bepinex.rs:127-149 | extracting the same archive twice gives the same tree as extracting it once |
| `RuntimeInstall.ExtractAllWrites` | src/bepinex.rs:146-147 | every file entry's path exists as a file after extraction |
| `RuntimeInstall.ExtractAllMakes` | src/bepinex.rs:138-145 | every entry's directories exist after extraction |
| `RuntimeInstall.MadeDirsHas` | src/bepinex.rs:138-145 | the directories extraction makes include those of every entry |
| `RuntimeInstall.PatchConfigFrame` | src/bepinex.rs:86-121 | the log-config patch touches only `BepInEx/config/BepInEx.cfg`: it removes no file or directory and changes no other file |
| `RuntimeInstall.InstallKeepsEntryData` | src/bepinex.rs:127-151 | after a successful install every path an entry writes, other than the config file, holds the last such entry's bytes |
| `RuntimeInstall.InstallWritesFiles` | src/bepinex.rs:138-148 | after a successful install every path a file entry writes is a file |
| `RuntimeInstall.InstallMakesDirs` | src/bepinex.rs:127-151 | after a successful install every entry's directories exist |
| `RuntimeInstall.InstallValidates` | src/bepinex.rs:123-153 | an archive that carries `BepInEx/core/BepInEx.dll` and `winhttp.dll` installs into a layout that validates and is detected as installed |
| `RuntimeInstall.InstallCreatesConfig` | src/bepinex.rs:88-95 | when the archive brings no config, installation creates one holding `[Logging]`, then `UnityLogListening = false` |
| `RuntimeInstall.TestArchiveReadable` | src/bepinex.rs:162-214 | installing the test archive succeeds |
| `RuntimeInstall.TestArchiveFiles` | src/bepinex.rs:216-241 | after the test archive is installed, `.doorstop_version`, `doorstop_config.ini`, `changelog.txt`, `winhttp.dll`, `BepInEx/core/BepInEx.dll`, `BepInEx/core/BepInEx.Core.xml` and `dotnet/.version` exist, and `.doorstop_version` holds exactly the bytes written to it |
| `RuntimeInstall.TestArchiveTopDirs` | src/bepinex.rs:223-232 | after the test archive is installed the `BepInEx` and `dotnet` directories exist |
| `RuntimeInstall.TestArchiveLayout` | src/bepinex.rs:222-229 | after the test archive is installed the `BepInEx/core`, `patchers`, `plugins` and `config` directories exist |
| `RuntimeInstall.TestArchiveDir` | src/bepinex.rs:222-232 | every directory entry of the test archive becomes a directory |
| `RuntimeInstall.TestArchiveDetected` | src/bepinex.rs:243-245 | the installed test archive is detected as "Installed" and validates |
| `RuntimeInstall.TestArchiveVersionWriter` | src/bepinex.rs:237-241 | `.doorstop_version` is written by the first entry alone |
| `BepInEx.LoadIndex` | src/bepinex.rs:20-31 | a missing index, one that is not UTF-8 text, and text that is not a manifest all give the empty manifest; any other result is what the index text parses to |
| `BepInEx.SaveIndexTo` | src/bepinex.rs:33-42 | saving creates `BepInEx` and writes the serialised manifest to `BepInEx/mod-manager.index.json` |
| `BepInEx.LoadAfterSave` | src/bepinex.rs:257-277 | loading after saving gives back exactly the saved manifest |
| `BepInEx.SaveIndexFrame` | src/bepinex.rs:33-42 | saving changes only the index file and adds only the `BepInEx` directory |
| `BepInEx.DetectStatus` | src/bepinex.rs:44-56 | the status is "Installed" exactly when `is_bep_installed` holds, and "Not installed" otherwise |
| `BepInEx.Validate` | src/bepinex.rs:58-79 | neither core library present gives the core-missing error; otherwise a missing `winhttp.dll` gives the loader-missing error; otherwise validation passes |
| `BepInEx.InstalledPassesCoreCheck` | src/bepinex.rs:44-70 | an installation `is_bep_installed` accepts never fails the core check |
| `BepInEx.ValidWithoutCoreDll` | src/bepinex.rs:44-79 | a layout with only `BepInEx.Core.dll` and `winhttp.dll` validates, yet is not detected as installed |
| `BepInEx.EnsureDirs` | src/bepinex.rs:81-84 | the plugins directory and all its ancestors exist afterwards, and nothing else changes |
| `IndexCodec.ParseSerialize` | src/types.rs:6-18 | parsing a serialised manifest gives back every record with all of its fields |
| `Utf8.DecodeEncode` | src/bepinex.rs:24 | decoding the UTF-8 encoding of any text gives back that text |
| `LogConfig.HeaderAbove` | src/bepinex.rs:99-104 | the section header in force at a line: the nearest trimmed `[...]` line above it |
| `LogConfig.FirstKeyLineFrom` | src/bepinex.rs:101-109 | the first key line at or after a position: inside a `[Logging]` section (any letter case), not a header, starting with `unityloglistening` in any letter case |
| `LogConfig.ScanForKey` | src/bepinex.rs:99-110 | the scan loop with its `in_logging` and `updated` flags sets `updated` exactly when a key line exists, and then replaces that first key line and only it |
| `LogConfig.PatchLinesOnlyKeyChanges` | src/bepinex.rs:105-108 | when a key line exists, the patch sets that first key line to `UnityLogListening = false` and leaves every other line, key lines in other sections included, verbatim |
| `LogConfig.PatchLinesInsertsKey` | src/bepinex.rs:111-117 | for the corrected patch: when no key line exists, the key goes right below the first `[Logging]` header; with no such header, a blank line, `[Logging]` and the key are appended. The code as written pushes the key at the end instead (`LogConfig.AsWrittenAppendsAtEnd`) |
| `LogConfig.PatchLinesDisablesListening` | src/bepinex.rs:98-117 | after the patch the effective `UnityLogListening` line inside `[Logging]` exists and reads `UnityLogListening = false` |
| `LogConfig.PatchLinesIdempotent` | src/bepinex.rs:98-117 | the corrected patch, applied twice, gives the same lines as applied once; the patch as written is not idempotent (`LogConfig.AsWrittenNotIdempotent`) |
| `LogConfig.FreshConfigLines` | src/bepinex.rs:93 | the fresh file's lines are `[Logging]` and the key, and the key is in force |
| `LogConfig.MissingConfigCreated` | src/bepinex.rs:88-95 | a missing config file is created, the patch reports success, and the file holds exactly `[Logging]\nUnityLogListening = false\n` |
| `LogConfig.SetUnityLogListeningFalse` | src/bepinex.rs:86-121 | the method changes the disk exactly as `PatchConfig` says: it creates the file when missing, fails without change on a directory or non-UTF-8 file, and otherwise writes the lines of the corrected patch `PatchLines` joined by "\n" |
| `LogConfig.AsWrittenKeyOutsideLogging` | src/bepinex.rs:111-117 | as written, a config whose `[Logging]` is not the last section gets the key appended under the wrong section, where the scan does not find it |
| `LogConfig.AsWrittenAppendsAtEnd` | src/bepinex.rs:111-117 | as written, a missing key is pushed after every existing line: alone when the lower-cased text contains `[logging]`, otherwise after a blank line and a new `[Logging]` header |
| `LogConfig.AsWrittenNotIdempotent` | src/bepinex.rs:98-119 | as written, patching `[Logging]`, `[Other]` twice appends the key twice: the key the first run put under `[Other]` is not found by the second |
| `LogConfig.AsWrittenAgrees` | src/bepinex.rs:98-119 | the as-written patch and the corrected one give the same lines whenever a key line exists or the lower-cased text never contains `[logging]`; they can differ only when no key line exists and the text contains `[logging]` |
| `LogConfig.HeaderAbovePrefix` | src/bepinex.rs:99-104 | the header in force at a line depends only on the lines above it |
| `LogConfig.KeyLinePrefix` | src/bepinex.rs:101-105 | whether a line is a key line depends only on it and the lines above it |
| `LogConfig.SkipKeyFree` | src/bepinex.rs:101-109 | with no key line above a given line, the search for the first key line may start at that line |
| `LogConfig.TrimmedKeyLine` | src/bepinex.rs:106 | the written key line is already trimmed, is not a header and is recognised as a key line |
| `LogConfig.LoggingHeaderLine` | src/bepinex.rs:114 | the appended header is trimmed and recognised as `[Logging]` |
| `App.InitialState` | src/types.rs:41-60 | the initial state is not busy, has no install task and no poller, is not ready, shows the getting-started tab, and has no mods; it satisfies the busy invariant |
| `App.SingleFlight` | src/main.rs:530-573 | starting an install while idle sets `is_busy` and a pending task; a second start, or the URL button, while busy changes nothing |
| `App.TakenClears` | src/main.rs:350-371 | taking a finished result clears `is_busy` and the slot, and after success readiness is `is_bep_installed`; a pending slot changes nothing |
| `App.TransitionsValid` | src/main.rs:251-280 | every handler keeps the invariant "busy exactly while an install task is held" |
| `App.WorkerOk` | src/main.rs:268-278 | a background install reports success only when a core library and `winhttp.dll` exist afterwards |
| `App.PollerMakesReady` | src/main.rs:338-347 | once BepInEx appears, the poller's flag followed by the frame's check makes the manager ready, sets the status to "Installed" and drops the poller |
| `App.FrameDrops` | src/main.rs:336-433 | one frame keeps the busy invariant, changes nothing but the records when files are dropped, handles drops only when idle and ready, and, with the corrected drop (replace by id), keeps ids unique |
| `App.ReadMetadata` | src/main.rs:51-68 | the metadata loop computes the metadata pass, `MetaFrom` |
| `App.WriteMapped` | src/main.rs:70-87 | the mapped extraction loop changes the disk as `MapAll` says and returns the recorded paths, `Recorded` |
| `App.WriteFallback` | src/main.rs:89-105 | the fallback loop changes the disk as `FallbackAll` says and returns `FallbackRecorded` |
| `App.WriteFlat` | src/main.rs:92-103 | one step of the fallback loop: a non-directory `.dll` entry is copied to `BepInEx/plugins/<file name>` and that path is recorded, as `FallbackStep` and `FallbackRecordOf` say; any other entry changes nothing |
| `App.AppState.constructor` | src/types.rs:41-60 | the new state is `AppState::default()` |
| `App.AppState.OpenGameDir` | src/main.rs:475-485 | choosing a folder sets the game directory and reloads the manifest, the status and readiness from it; start-up does the same (src/main.rs:595-600) |
| `App.AppState.EditGameDir` | src/main.rs:471-474 | editing the path text changes the game directory only |
| `App.AppState.StartInstall` | src/main.rs:530-573 | the busy guard of both asynchronous starters: refused while busy, otherwise busy with a pending task |
| `App.AppState.ClickInstallFromUrl` | src/main.rs:251-256 | the URL button starts an install for the trimmed URL when it is not empty |
| `App.AppState.ClickInstallFromZip` | src/main.rs:258-280 | picking a zip makes the manager busy with a pending zip install; cancelling the picker changes nothing |
| `App.AppState.RunWorker` | src/main.rs:268-278 | the install thread installs the archive, validates it when extraction succeeded, and fills the result slot; nothing else changes. Its config step is the corrected log patch (see "## Left out") |
| `App.AppState.TakeTaskResult` | src/main.rs:349-372 | the frame takes a finished result as `Taken` says |
| `App.AppState.PollOnce` | src/poller.rs:19-34 | one poll raises the flag once `is_bep_installed` holds |
| `App.AppState.CheckPoller` | src/main.rs:337-347 | a raised flag makes the manager ready, refreshes the status and drops the poller |
| `App.AppState.SelectTab` | src/main.rs:490-503 | the mods tab can be selected only once ready; the getting-started tab always can |
| `App.AppState.ShowStatus` | src/main.rs:236-238 | an empty status is filled in from the disk |
| `App.AppState.InstallModFromZipPath` | src/main.rs:41-128 | the installer changes the disk and the records exactly as `ModInstall.InstallMod` says and returns its outcome |
| `App.AppState.DropDll` | src/main.rs:393-424 | a dropped library changes the disk and records as the corrected `ModInstall.DropDll` says |
| `App.AppState.HandleDroppedFiles` | src/main.rs:374-433 | while idle and ready, dropped files are handled in order as the corrected `DropAll` says; otherwise nothing changes |
| `App.AppState.Update` | src/main.rs:336-433 | one frame does, in order, the poller check, the task result and the dropped files (with the corrected drop), as `Frame` says |
| `App.AppState.UninstallMod` | src/main.rs:130-158 | uninstalling changes the disk and records exactly as `Uninstall.UninstallMod` says; an index past the end changes nothing |
| `FileSystem.Disk.constructor` | src/types.rs:27 | the disk holds the given tree of the game directory |
| `FileSystem.Disk.CreateDirAll` | src/bepinex.rs:82 | `create_dir_all` adds the directory and all its ancestors |
| `FileSystem.Disk.WriteFile` | src/bepinex.rs:146-147 | creating and writing a file sets its content and nothing else |
| `FileSystem.Disk.RemoveFile` | src/main.rs:139 | removing a file deletes it, and changes nothing when the path is not a file |
| `FileSystem.Disk.RemoveEmptyDirsBelow` | src/main.rs:143-152 | the pre-order walk with `remove_dir` removes exactly the directories below the root that are empty when the walk starts |

## Left out

The two defects listed under "## Findings" are modelled in both forms, and the operations below run the corrected form. For them the model does not promise the behaviour of the code as written:

- SetUnityLogListeningFalse (`LogConfig.SetUnityLogListeningFalse`): writes the lines of the corrected `PatchLines`. When no key line exists but the text contains `[logging]`, src/bepinex.rs:111-117 pushes the key alone at the end of the file. The model puts it right below the first `[Logging]` header line. When `[logging]` occurs only inside some other line and no line is a `[Logging]` header, the model instead appends a blank line, the header and the key (`LogConfig.AppendKey`). `LogConfig.AsWrittenAgrees` proves that this is the only case where the two differ. The as-written result is `LogConfig.PatchLinesAsWritten`, described by `LogConfig.AsWrittenAppendsAtEnd`.
- PatchLinesInsertsKey (`LogConfig.PatchLinesInsertsKey`): describes the corrected insertion below the `[Logging]` header, not the push at the end of the file in src/bepinex.rs:116.
- PatchLinesIdempotent (`LogConfig.PatchLinesIdempotent`): holds of the corrected patch only. `LogConfig.AsWrittenNotIdempotent` shows that the patch as written adds a second key line to `[Logging]`, `[Other]`.
- InstallBepInExFromZipBytes (`RuntimeInstall.InstallBepInExFromZipBytes`): its log-config step, through `RuntimeInstall.InstallFromZip` and `LogConfig.PatchConfig`, is the corrected patch. What it states about extraction, about validation and about the swallowed patch result is unaffected.
- RunWorker (`App.AppState.RunWorker`): the disk it leaves is `App.WorkerRun`, which installs through `RuntimeInstall.InstallFromZip` and so applies the corrected `LogConfig.PatchConfig` to an existing `BepInEx/config/BepInEx.cfg`. For a config holding `[Logging]` then `[Other]` and no key line, the thread as written (src/main.rs:272, src/bepinex.rs:151 and 111-117) leaves the key under `[Other]`; the model puts it under `[Logging]`. Extraction, validation and the filled result slot are as written.
- DropDll (`App.AppState.DropDll`): replaces an existing record with the same id before pushing. src/main.rs:401-418 only pushes, so a repeated drop leaves two records with one id (`ModInstall.AsWrittenDropDuplicates`, on `ModInstall.DropDllAsWritten`).
- DropAllUnique (`ModInstall.DropAllUnique`): "ids stay unique" holds of the corrected drop only. The drop loop as written can create duplicate ids.
- HandleDroppedFiles (`App.AppState.HandleDroppedFiles`): handles each `.dll` with the corrected drop. The zip branch and the guards are as written.
- FrameDrops (`App.FrameDrops`): its "ids stay unique" clause holds of the corrected drop only. Its other clauses hold of the code as written too.
- Update (`App.AppState.Update`): the drop step of the frame is the corrected `DropAll`. The poller check and the taking of the task result are as written.

Other omissions:

- Filesystem failures. Permission errors, full disks, files and directories colliding, and a directory where a file is created are all left out. Every `?` on a filesystem call is therefore taken as success. The errors that remain are an archive that cannot be opened, an entry that cannot be read, and text that is not UTF-8.
- Path syntax:
  - paths are relative to the game directory and use '/' only;
  - Windows '\\' separators, drive prefixes and `PathBuf` component normalisation (such as "a//b" being read as "a/b") are not modelled;
  - a mapped path starting with '/' is kept as a game-relative name.
- Lower-casing is ASCII only. Rust's Unicode `to_lowercase` can change a string's length. It never creates or destroys the ASCII needles the core looks for (`bepinex/plugins/`, `plugins/`, `manifest.json`, `.dll`, `[logging]`, `unityloglistening`), but the model does not prove that.
- JSON: serde's pretty-printed JSON for the manifest is replaced by the codec in `IndexCodec`, which has the same fields and a proven round trip. Only save-then-load with this model's own encoding is covered.
- `manifest.json` inside mod archives is parsed by a function that the installer takes as a parameter (`read`). The JSON grammar of serde is not modelled.
- Zip decompression and the zip format are not modelled: an archive is its list of readable or unreadable entries. The fallback pass reopens the archive from disk. In the model that reopening always yields the same archive.
- The status log (`log`) and every message pushed to it, including the `removed_any` flag of `uninstall_mod`, are not modelled.
- The egui interface is left out: drawing, the drop zone, the logo texture, the Play button, process launch and opening Explorer.
- The reqwest/tokio download is left out. A download, or a ZIP the user picked, reaches the install thread as `App.AppState.RunWorker`'s `fetched`, either bytes already read as an archive or the error getting them.
- Threads and mutexes: the install thread and the poller run as explicit steps (`RunWorker`, `PollOnce`), interleaved by the caller. The poller's five-second sleep and its loop are not modelled.
- `config.rs` (TOML settings and layout constants) is not part of this model. The default game directory is the constant from `AppState::default()`, and the download URL is folded into `Job.LatestRelease`.
- `App.AppState.EditGameDir` only sets `gameDir`. The class keeps one `Disk`, meant as the content of the directory `gameDir` names. Switching to another directory's content is the caller's job, done by passing that directory's disk.
- The dropped-file loop reads the extension with `to_str()`. A path that is not valid Unicode is not modelled.

## Findings

| source | as written | input that shows it | evidently intended | confidence | as-written member | corrected member |
|---|---|---|---|---|---|---|
| src/bepinex.rs:111-117 | when no key line was found but the text contains `[logging]`, `UnityLogListening = false` is pushed at the end of the file, whatever section is last | the config `[Logging]\n[Other]` becomes `[Logging]`, `[Other]`, `UnityLogListening = false`: the key lands in `[Other]`, where BepInEx and the scan itself do not find it | insert the key right below the `[Logging]` header | not executed | `LogConfig.AsWrittenKeyOutsideLogging` | `LogConfig.PatchLinesDisablesListening` |
| src/main.rs:401-418 | a dropped `.dll` is pushed as a new record without removing an existing record of the same id, unlike the zip path (src/main.rs:123) | dropping `a/X.dll` twice leaves two records with id `X`; uninstalling one deletes the file the other still lists | replace a record with the same id, as zip installs do | not executed | `ModInstall.AsWrittenDropDuplicates` | `ModInstall.DropDllSpec` |

In each row the corrected definition is the one the model uses:

- `LogConfig.PatchLines` (with `LogConfig.AppendKey`) is used by `LogConfig.SetUnityLogListeningFalse`.
- `ModInstall.DropDll` is used by `App.AppState.DropDll` and by `ModInstall.DropAll`.

The as-written behaviour is kept beside each corrected definition: `LogConfig.PatchLinesAsWritten` and `ModInstall.DropDllAsWritten`. `LogConfig.AsWrittenAgrees` shows that the log-config correction can change the result only in the case of its row: no key line exists, yet the text contains `[logging]`. In that case the code as written is also not idempotent (`LogConfig.AsWrittenNotIdempotent`): each run appends one more key line.

A related observation is not a bug: `BepInEx.ValidWithoutCoreDll` shows a layout that `validate_bepinex_installation` accepts while `is_bep_installed` rejects it. Such an installation passes validation, but the mods tab stays disabled until `BepInEx.dll` appears.
