/**
 * Installing a mod from its archive, dropping a loose library, and
 * uninstalling a mod, as functions of the game directory and the list of
 * installed mods. The archive installer reads the manifests first, then
 * writes every entry the path rules place, falls back to flattening the
 * archive's libraries into the plugins directory when the rules place no
 * file, and finally replaces the mod's record by id. The methods of
 * `App.AppState` are proved to compute exactly these functions.
 */
module ModInstall {
  import opened Common
  import opened FileSystem
  import opened Types
  import opened Zip
  import Text
  import Paths
  import Utf8
  import PathMapper
  import BepInEx

  /** The fields of a mod's `manifest.json` that the manager reads. */
  datatype Manifest = Manifest(name: Option<string>, versionNumber: Option<string>, version: Option<string>)

  /** What the metadata pass has learnt so far. */
  datatype Meta = Meta(name: Option<string>, version: Option<string>)

  const NoMeta: Meta := Meta(None, None)
  const NothingInstallable := "No installable files found in zip"
  /** The id and name used when a path has no usable file stem or file name. */
  const DefaultId := "mod"

  // ------------------------------------------------------------- metadata pass

  /** An entry read as a manifest: its lower-cased name ends with `manifest.json`. */
  predicate IsManifestName(name: string) {
    Text.EndsWith(Text.Lower(name), "manifest.json")
  }

  /**
   * A manifest overrides what earlier ones gave, field by field; a
   * `version_number` is preferred to a `version`.
   */
  function Absorb(meta: Meta, m: Manifest): Meta {
    Meta(m.name.Or(meta.name), m.versionNumber.Or(m.version).Or(meta.version))
  }

  /** An entry that makes the metadata pass fail: unreadable, or a manifest that is not UTF-8 text. */
  predicate StopsMeta(e: Entry) {
    e.Corrupt? || (IsManifestName(e.name) && Utf8.Decode(e.data).None?)
  }

  /** A manifest entry from which `read` takes a mod name. */
  predicate NamesMod(e: Entry, read: string -> Option<Manifest>) {
    && e.Entry? && IsManifestName(e.name)
    && Utf8.Decode(e.data).Some?
    && read(Utf8.Decode(e.data).value).Some?
    && read(Utf8.Decode(e.data).value).value.name.Some?
  }

  /**
   * One entry of the metadata pass. `read` is the JSON reader: it gives no
   * manifest for text it cannot deserialise, which is then ignored.
   */
  function MetaStep(meta: Meta, e: Entry, read: string -> Option<Manifest>): Result<Meta> {
    if e.Corrupt? then Failure(e.reason)
    else if !IsManifestName(e.name) then Success(meta)
    else match Utf8.Decode(e.data)
      case None => Failure(Utf8.NotUtf8Msg)
      case Some(text) =>
        match read(text)
        case None => Success(meta)
        case Some(m) => Success(Absorb(meta, m))
  }

  /** The metadata pass over `es`, starting from `meta`; the first failure ends it. */
  function MetaFrom(meta: Meta, es: seq<Entry>, read: string -> Option<Manifest>): Result<Meta>
    decreases |es|
  {
    if es == [] then Success(meta)
    else match MetaStep(meta, es[0], read)
      case Failure(msg) => Failure(msg)
      case Success(next) => MetaFrom(next, es[1..], read)
  }

  /**
   * The metadata pass succeeds exactly when no entry stops it, and then
   * every entry of the archive is readable.
   */
  lemma {:induction false} MetaFromSucceeds(meta: Meta, es: seq<Entry>, read: string -> Option<Manifest>)
    ensures MetaFrom(meta, es, read).Success? <==> forall i :: 0 <= i < |es| ==> !StopsMeta(es[i])
    ensures MetaFrom(meta, es, read).Success? ==> AllReadable(es)
    decreases |es|
  {
    if es != [] {
      match MetaStep(meta, es[0], read)
      case Failure(_) =>
      case Success(next) =>
        MetaFromSucceeds(next, es[1..], read);
        assert forall i :: 1 <= i < |es| ==> es[i] == es[1..][i - 1];
    }
  }

  /**
   * After a successful pass a name is known exactly when one was known
   * before or some manifest supplies one.
   */
  lemma {:induction false} MetaFromName(meta: Meta, es: seq<Entry>, read: string -> Option<Manifest>)
    requires MetaFrom(meta, es, read).Success?
    ensures MetaFrom(meta, es, read).value.name.Some? <==>
      meta.name.Some? || exists i :: 0 <= i < |es| && NamesMod(es[i], read)
    decreases |es|
  {
    if es != [] {
      match MetaStep(meta, es[0], read)
      case Success(next) =>
        MetaFromName(next, es[1..], read);
        assert next.name.Some? <==> meta.name.Some? || NamesMod(es[0], read);
        if exists i :: 0 <= i < |es| && NamesMod(es[i], read) {
          var i :| 0 <= i < |es| && NamesMod(es[i], read);
          if i > 0 {
            assert NamesMod(es[1..][i - 1], read);
          }
        }
        if exists i :: 0 <= i < |es[1..]| && NamesMod(es[1..][i], read) {
          var i :| 0 <= i < |es[1..]| && NamesMod(es[1..][i], read);
          assert NamesMod(es[i + 1], read);
        }
    }
  }

  // ------------------------------------------------------------- mapped pass

  /** A file entry placed by the path rules; only these are recorded. */
  predicate IsMappedFile(e: Entry) {
    e.Entry? && !PathMapper.EndsWithSlash(e.name) && PathMapper.MapEntry(e.name).Some?
  }

  /** A directory entry placed by the path rules. */
  predicate IsMappedDir(e: Entry) {
    e.Entry? && PathMapper.EndsWithSlash(e.name) && PathMapper.MapEntry(e.name).Some?
  }

  /**
   * One entry of the mapped pass: a directory entry creates its directory,
   * a file entry creates its parent directories and then its file.
   */
  function MapStep(fs: Fs, e: Entry): Fs
    requires e.Entry?
  {
    match PathMapper.MapEntry(e.name)
    case None => fs
    case Some(rel) =>
      if PathMapper.EndsWithSlash(e.name) then WithDirAll(fs, rel)
      else WithFile(WithDirAll(fs, Paths.Parent(rel)), rel, e.data)
  }

  function MapAll(fs: Fs, es: seq<Entry>): Fs
    requires AllReadable(es)
    decreases |es|
  {
    if es == [] then fs else MapStep(MapAll(fs, es[..|es| - 1]), es[|es| - 1])
  }

  function RecordOf(e: Entry): seq<Path> {
    if IsMappedFile(e) then [PathMapper.MapEntry(e.name).value] else []
  }

  /** What a pass pushes onto `installed_files`: the record `f` of each entry, in archive order. */
  function Gather(es: seq<Entry>, f: Entry -> seq<Path>): seq<Path>
    decreases |es|
  {
    if es == [] then [] else Gather(es[..|es| - 1], f) + f(es[|es| - 1])
  }

  /** The records of a concatenation are concatenated. */
  lemma {:induction false} GatherAppend(a: seq<Entry>, b: seq<Entry>, f: Entry -> seq<Path>)
    ensures Gather(a + b, f) == Gather(a, f) + Gather(b, f)
    decreases |b|
  {
    if b == [] {
      assert a + b == a;
    } else {
      assert (a + b)[..|a + b| - 1] == a + b[..|b| - 1];
      GatherAppend(a, b[..|b| - 1], f);
    }
  }

  /** A path is gathered exactly when the record of some entry holds it. */
  lemma {:induction false} GatherIn(es: seq<Entry>, f: Entry -> seq<Path>, p: Path)
    ensures p in Gather(es, f) <==> exists i :: 0 <= i < |es| && p in f(es[i])
    decreases |es|
  {
    if es != [] {
      var init := es[..|es| - 1];
      var last := es[|es| - 1];
      GatherIn(init, f, p);
      if p in Gather(init, f) {
        var i :| 0 <= i < |init| && p in f(init[i]);
        assert es[i] == init[i];
      } else if p in f(last) {
        assert es[|es| - 1] == last;
      } else {
        forall i | 0 <= i < |es| ensures p !in f(es[i]) {
          if i < |init| {
            assert es[i] == init[i];
          }
        }
      }
    }
  }

  /** Nothing is gathered exactly when every entry's record is empty. */
  lemma {:induction false} GatherEmpty(es: seq<Entry>, f: Entry -> seq<Path>)
    ensures Gather(es, f) == [] <==> forall i :: 0 <= i < |es| ==> f(es[i]) == []
    decreases |es|
  {
    if es != [] {
      var init := es[..|es| - 1];
      GatherEmpty(init, f);
      assert forall i :: 0 <= i < |init| ==> init[i] == es[i];
    }
  }

  /** The paths the mapped pass records, one per mapped file entry. */
  function Recorded(es: seq<Entry>): seq<Path> {
    Gather(es, RecordOf)
  }

  /** Recording follows archive order: the records of a concatenation are concatenated. */
  lemma RecordedAppend(a: seq<Entry>, b: seq<Entry>)
    ensures Recorded(a + b) == Recorded(a) + Recorded(b)
  {
    GatherAppend(a, b, RecordOf);
  }

  /**
   * A path is recorded exactly when some mapped file entry maps to it;
   * directory entries are never recorded.
   */
  lemma RecordedMembers(es: seq<Entry>, p: Path)
    ensures p in Recorded(es) <==>
      exists i :: 0 <= i < |es| && IsMappedFile(es[i]) && PathMapper.MapEntry(es[i].name).value == p
  {
    GatherIn(es, RecordOf, p);
    forall i | 0 <= i < |es|
      ensures p in RecordOf(es[i]) <==> IsMappedFile(es[i]) && PathMapper.MapEntry(es[i].name).value == p
    {
    }
  }

  /** The pass records nothing exactly when no file entry is placed by the rules. */
  lemma RecordedEmpty(es: seq<Entry>)
    ensures Recorded(es) == [] <==> forall i :: 0 <= i < |es| ==> !IsMappedFile(es[i])
  {
    GatherEmpty(es, RecordOf);
    forall i | 0 <= i < |es| ensures RecordOf(es[i]) == [] <==> !IsMappedFile(es[i]) {
    }
  }

  /** Files and directories once present stay present through the mapped pass. */
  lemma {:induction false} MapAllGrows(fs: Fs, es: seq<Entry>)
    requires AllReadable(es)
    ensures fs.files.Keys <= MapAll(fs, es).files.Keys
    ensures fs.dirs <= MapAll(fs, es).dirs
    decreases |es|
  {
    if es != [] {
      MapAllGrows(fs, es[..|es| - 1]);
    }
  }

  /**
   * After the mapped pass every recorded path is a file, and every mapped
   * directory entry is a directory (with its ancestors).
   */
  lemma {:induction false} MapAllEffects(fs: Fs, es: seq<Entry>, i: nat)
    requires AllReadable(es) && i < |es|
    ensures IsMappedFile(es[i]) ==> PathMapper.MapEntry(es[i].name).value in MapAll(fs, es).files
    ensures IsMappedDir(es[i]) ==> Paths.DirChain(es[i].name) <= MapAll(fs, es).dirs
    decreases |es|
  {
    var init := es[..|es| - 1];
    if i < |init| {
      assert init[i] == es[i];
      MapAllEffects(fs, init, i);
      MapAllGrows(MapAll(fs, init), [es[|es| - 1]]);
      assert [es[|es| - 1]][..0] == [];
    } else if IsMappedDir(es[i]) {
      PathMapper.MapDirectory(es[i].name);
    }
  }

  /** No mapped file entry after the `i`-th one is placed at path `p`. */
  predicate NoLaterMapped(es: seq<Entry>, i: nat, p: Path) {
    forall j :: i < j < |es| && IsMappedFile(es[j]) ==> PathMapper.MapEntry(es[j].name).value != p
  }

  /**
   * The bytes a mapped file entry is copied with stay at its destination
   * unless a later mapped file entry is copied over the same path.
   */
  lemma {:induction false} MapAllContent(fs: Fs, es: seq<Entry>, i: nat)
    requires AllReadable(es) && i < |es| && IsMappedFile(es[i])
    requires NoLaterMapped(es, i, PathMapper.MapEntry(es[i].name).value)
    ensures var p := PathMapper.MapEntry(es[i].name).value;
            p in MapAll(fs, es).files && MapAll(fs, es).files[p] == es[i].data
    decreases |es|
  {
    var init := es[..|es| - 1];
    if i < |init| {
      assert init[i] == es[i];
      assert AllReadable(init) by {
        forall j | 0 <= j < |init| ensures init[j].Entry? {
          assert init[j] == es[j];
        }
      }
      assert NoLaterMapped(init, i, PathMapper.MapEntry(es[i].name).value) by {
        forall j | i < j < |init| && IsMappedFile(init[j])
          ensures PathMapper.MapEntry(init[j].name).value != PathMapper.MapEntry(es[i].name).value
        {
          assert init[j] == es[j];
        }
      }
      MapAllContent(fs, init, i);
      assert IsMappedFile(es[|es| - 1]) ==>
        PathMapper.MapEntry(es[|es| - 1].name).value != PathMapper.MapEntry(es[i].name).value;
    }
  }

  // ------------------------------------------------------------- fallback pass

  /** A file entry whose lower-cased name ends with `.dll`. */
  predicate IsLooseDll(e: Entry) {
    e.Entry? && !PathMapper.EndsWithSlash(e.name) && Text.EndsWith(Text.Lower(e.name), ".dll")
  }

  /** A library's name has a file name: its last segment, which ends with the extension. */
  lemma LooseDllFileName(name: string)
    requires !PathMapper.EndsWithSlash(name) && Text.EndsWith(Text.Lower(name), ".dll")
    ensures Paths.FileName(name) == Some(Paths.LastSegment(name))
  {
    var seg := Paths.LastSegment(name);
    var n := |name|;
    assert Text.Lower(name)[n - 4..] == ".dll";
    assert Text.Lower(name)[n - 4] == '.' && Text.Lower(name)[n - 1] == 'l';
    assert name[n - 4] == '.' && name[n - 1] != '/';
  }

  /** Where a file named `name` goes when it is flattened into the plugins directory. */
  function FlatTarget(name: string): Path
    requires Paths.FileName(name).Some?
  {
    PathMapper.JoinPath(BepInEx.PluginsDir, Paths.FileName(name).value)
  }

  /** The flattened target lies directly in the plugins directory and keeps the file name. */
  lemma FlatTargetName(name: string)
    requires Paths.FileName(name).Some?
    ensures FlatTarget(name) == "BepInEx/plugins/" + Paths.FileName(name).value
    ensures Paths.FileName(FlatTarget(name)) == Paths.FileName(name)
    ensures Paths.Parent(FlatTarget(name)) == BepInEx.PluginsDir
  {
    var n := Paths.FileName(name).value;
    assert n[0] != '/' by { assert n[0] in n; }
    assert "BepInEx/plugins" + "/" + n == "BepInEx/plugins/" + n;
    Paths.FileNameJoin(BepInEx.PluginsDir, n);
  }

  /** What the fallback records for a library: `BepInEx/plugins/` and the written file's name. */
  function FlatRecord(name: string): Path
    requires Paths.FileName(name).Some?
  {
    FlatTargetName(name);
    "BepInEx/plugins/" + Paths.FileName(FlatTarget(name)).value
  }

  /** One entry of the fallback pass: a library is written straight into the plugins directory. */
  function FallbackStep(fs: Fs, e: Entry): Fs {
    if IsLooseDll(e) then
      LooseDllFileName(e.name);
      WithFile(fs, FlatTarget(e.name), e.data)
    else fs
  }

  function FallbackAll(fs: Fs, es: seq<Entry>): Fs
    decreases |es|
  {
    if es == [] then fs else FallbackStep(FallbackAll(fs, es[..|es| - 1]), es[|es| - 1])
  }

  function FallbackRecordOf(e: Entry): seq<Path> {
    if IsLooseDll(e) then
      LooseDllFileName(e.name);
      [FlatRecord(e.name)]
    else []
  }

  function FallbackRecorded(es: seq<Entry>): seq<Path> {
    Gather(es, FallbackRecordOf)
  }

  /** The fallback pass over one more entry: one more step, one more record. */
  lemma FallbackPrefixStep(fs: Fs, es: seq<Entry>, i: nat)
    requires i < |es|
    ensures FallbackAll(fs, es[..i + 1]) == FallbackStep(FallbackAll(fs, es[..i]), es[i])
    ensures FallbackRecorded(es[..i + 1]) == FallbackRecorded(es[..i]) + FallbackRecordOf(es[i])
  {
    assert es[..i + 1][..i] == es[..i];
  }

  /** A library is written at `BepInEx/plugins/<file name>` with its own bytes. */
  lemma FallbackStepWrites(fs: Fs, e: Entry)
    requires IsLooseDll(e)
    ensures FallbackStep(fs, e) == WithFile(fs, "BepInEx/plugins/" + Paths.LastSegment(e.name), e.data)
    ensures FallbackRecordOf(e) == ["BepInEx/plugins/" + Paths.LastSegment(e.name)]
  {
    LooseDllFileName(e.name);
    FlatTargetName(e.name);
  }

  /**
   * Every path the fallback records is `BepInEx/plugins/<file name>` of some
   * library, and it is a file afterwards (the converse is `FallbackRecordsEach`).
   */
  lemma {:induction false} FallbackEffects(fs: Fs, es: seq<Entry>, p: Path)
    requires p in FallbackRecorded(es)
    ensures p in FallbackAll(fs, es).files
    ensures exists i :: 0 <= i < |es| && IsLooseDll(es[i]) &&
                       p == "BepInEx/plugins/" + Paths.LastSegment(es[i].name)
    decreases |es|
  {
    var init := es[..|es| - 1];
    var e := es[|es| - 1];
    assert FallbackRecorded(es) == FallbackRecorded(init) + FallbackRecordOf(e);
    if p in FallbackRecorded(init) {
      FallbackEffects(fs, init, p);
      var i :| 0 <= i < |init| && IsLooseDll(init[i]) && p == "BepInEx/plugins/" + Paths.LastSegment(init[i].name);
      assert es[i] == init[i];
    } else {
      FallbackStepWrites(FallbackAll(fs, init), e);
    }
  }

  /** Every library in the archive is recorded as `BepInEx/plugins/<file name>`: none is missed. */
  lemma FallbackRecordsEach(es: seq<Entry>, i: nat)
    requires i < |es| && IsLooseDll(es[i])
    ensures "BepInEx/plugins/" + Paths.LastSegment(es[i].name) in FallbackRecorded(es)
  {
    LooseDllFileName(es[i].name);
    FlatTargetName(es[i].name);
    GatherIn(es, FallbackRecordOf, "BepInEx/plugins/" + Paths.LastSegment(es[i].name));
    assert FallbackRecordOf(es[i]) == [FlatRecord(es[i].name)];
  }

  /** No library after the `i`-th one has the file name `n`. */
  predicate NoLaterLibrary(es: seq<Entry>, i: nat, n: string) {
    forall j :: i < j < |es| && IsLooseDll(es[j]) ==> Paths.LastSegment(es[j].name) != n
  }

  /** Distinct file names give distinct places in the plugins directory. */
  lemma PluginsPathInjective(a: string, b: string)
    requires a != b
    ensures "BepInEx/plugins/" + a != "BepInEx/plugins/" + b
  {
    var pre := "BepInEx/plugins/";
    assert a == (pre + a)[|pre|..];
    assert b == (pre + b)[|pre|..];
  }

  /**
   * The fallback copies each library's bytes to `BepInEx/plugins/<file name>`;
   * they stay there unless a later library has the same file name.
   */
  lemma {:induction false} FallbackContent(fs: Fs, es: seq<Entry>, i: nat)
    requires i < |es| && IsLooseDll(es[i])
    requires NoLaterLibrary(es, i, Paths.LastSegment(es[i].name))
    ensures var p := "BepInEx/plugins/" + Paths.LastSegment(es[i].name);
            p in FallbackAll(fs, es).files && FallbackAll(fs, es).files[p] == es[i].data
    decreases |es|
  {
    var init := es[..|es| - 1];
    var e := es[|es| - 1];
    var n := Paths.LastSegment(es[i].name);
    if i < |init| {
      assert init[i] == es[i];
      assert NoLaterLibrary(init, i, n) by {
        forall j | i < j < |init| && IsLooseDll(init[j]) ensures Paths.LastSegment(init[j].name) != n {
          assert init[j] == es[j];
        }
      }
      FallbackContent(fs, init, i);
      if IsLooseDll(e) {
        FallbackStepWrites(FallbackAll(fs, init), e);
        assert Paths.LastSegment(e.name) != n;
        PluginsPathInjective(Paths.LastSegment(e.name), n);
      }
    } else {
      FallbackStepWrites(FallbackAll(fs, init), e);
    }
  }

  /** The fallback records nothing exactly when the archive holds no library file. */
  lemma FallbackEmpty(es: seq<Entry>)
    ensures FallbackRecorded(es) == [] <==> forall i :: 0 <= i < |es| ==> !IsLooseDll(es[i])
  {
    GatherEmpty(es, FallbackRecordOf);
    forall i | 0 <= i < |es| ensures FallbackRecordOf(es[i]) == [] <==> !IsLooseDll(es[i]) {
    }
  }

  // ------------------------------------------------------------- the whole install

  /** The files written and the paths recorded: the mapped pass, then the fallback when it recorded nothing. */
  function Deploy(fs: Fs, es: seq<Entry>): (Fs, seq<Path>)
    requires AllReadable(es)
  {
    var mapped := MapAll(fs, es);
    if Recorded(es) != [] then (mapped, Recorded(es))
    else (FallbackAll(mapped, es), FallbackRecorded(es))
  }

  /** Deploying records nothing exactly when no entry is placed by the rules or is a library. */
  lemma DeployEmpty(fs: Fs, es: seq<Entry>)
    requires AllReadable(es)
    ensures Deploy(fs, es).1 == [] <==>
      forall i :: 0 <= i < |es| ==> !IsMappedFile(es[i]) && !IsLooseDll(es[i])
  {
    RecordedEmpty(es);
    FallbackEmpty(es);
  }

  /** Every path deploying records is a file afterwards. */
  lemma DeployRecordsFiles(fs: Fs, es: seq<Entry>, p: Path)
    requires AllReadable(es) && p in Deploy(fs, es).1
    ensures p in Deploy(fs, es).0.files
  {
    if Recorded(es) != [] {
      RecordedMembers(es, p);
      var i :| 0 <= i < |es| && IsMappedFile(es[i]) && PathMapper.MapEntry(es[i].name).value == p;
      MapAllEffects(fs, es, i);
    } else {
      FallbackEffects(MapAll(fs, es), es, p);
    }
  }

  /** `file_stem` of the archive's path, or `mod`. */
  function ModId(zipPath: string): string {
    Paths.FileStem(zipPath).GetOr(DefaultId)
  }

  /** `retain(|m| m.id != id)`. */
  function WithoutId(mods: seq<ModEntry>, id: string): (r: seq<ModEntry>)
    ensures forall i :: 0 <= i < |r| ==> r[i].id != id
    ensures forall m :: m in r ==> m in mods
    decreases |mods|
  {
    if mods == [] then []
    else WithoutId(mods[..|mods| - 1], id) + (if mods[|mods| - 1].id == id then [] else [mods[|mods| - 1]])
  }

  lemma {:induction false} WithoutIdAppend(a: seq<ModEntry>, b: seq<ModEntry>, id: string)
    ensures WithoutId(a + b, id) == WithoutId(a, id) + WithoutId(b, id)
    decreases |b|
  {
    if b == [] {
      assert a + b == a;
    } else {
      assert (a + b)[..|a + b| - 1] == a + b[..|b| - 1];
      WithoutIdAppend(a, b[..|b| - 1], id);
    }
  }

  /** Filtering keeps the entries that pass, in order: it changes nothing when all pass. */
  lemma {:induction false} WithoutIdNone(mods: seq<ModEntry>, id: string)
    requires forall i :: 0 <= i < |mods| ==> mods[i].id != id
    ensures WithoutId(mods, id) == mods
    decreases |mods|
  {
    if mods != [] {
      WithoutIdNone(mods[..|mods| - 1], id);
    }
  }

  /** Filtering by one id keeps records with distinct ids distinct. */
  lemma {:induction false} WithoutIdUnique(mods: seq<ModEntry>, id: string)
    requires UniqueIds(mods)
    ensures UniqueIds(WithoutId(mods, id))
    decreases |mods|
  {
    if mods != [] {
      var init := mods[..|mods| - 1];
      assert UniqueIds(init) by {
        forall i, j | 0 <= i < j < |init| ensures init[i].id != init[j].id {
          assert init[i] == mods[i] && init[j] == mods[j];
        }
      }
      WithoutIdUnique(init, id);
      var last := mods[|mods| - 1];
      forall m | m in WithoutId(init, id) ensures m.id != last.id {
        var k :| 0 <= k < |init| && init[k] == m;
        assert mods[k] == m;
      }
    }
  }

  /** `retain(|m| m.id != entry.id)` then `push(entry)`. */
  function ReplaceById(mods: seq<ModEntry>, entry: ModEntry): seq<ModEntry> {
    WithoutId(mods, entry.id) + [entry]
  }

  /**
   * After replacing, `entry` is the one record with its id and is last; the
   * records with other ids are those of before, in the same order; ids stay
   * unique.
   */
  lemma ReplaceByIdSpec(mods: seq<ModEntry>, entry: ModEntry)
    ensures var r := ReplaceById(mods, entry);
            && |r| > 0 && r[|r| - 1] == entry
            && (forall i :: 0 <= i < |r| && r[i].id == entry.id ==> i == |r| - 1)
            && WithoutId(r, entry.id) == WithoutId(mods, entry.id)
    ensures UniqueIds(mods) ==> UniqueIds(ReplaceById(mods, entry))
  {
    var kept := WithoutId(mods, entry.id);
    var r := kept + [entry];
    assert forall i :: 0 <= i < |kept| ==> r[i] == kept[i];
    WithoutIdAppend(kept, [entry], entry.id);
    WithoutIdSingle(entry, entry.id);
    WithoutIdNone(kept, entry.id);
    assert WithoutId(r, entry.id) == kept + [];
    if UniqueIds(mods) {
      WithoutIdUnique(mods, entry.id);
      PushUnique(kept, entry);
    }
  }

  /** Pushing a record whose id no other record has keeps ids unique. */
  lemma PushUnique(mods: seq<ModEntry>, entry: ModEntry)
    requires UniqueIds(mods) && forall i :: 0 <= i < |mods| ==> mods[i].id != entry.id
    ensures UniqueIds(mods + [entry])
  {
    var r := mods + [entry];
    forall i, j | 0 <= i < j < |r| ensures r[i].id != r[j].id {
      assert r[i] == mods[i];
      if j < |mods| {
        assert r[j] == mods[j];
      }
    }
  }

  lemma WithoutIdSingle(m: ModEntry, id: string)
    ensures WithoutId([m], id) == if m.id == id then [] else [m]
  {
    assert [m][..0] == [];
  }

  // ------------------------------------------------------------- the archive installer

  /** The record a successful install adds: the name falls back to the id. */
  function NewEntry(zipPath: string, meta: Meta, files: seq<Path>): ModEntry {
    var id := ModId(zipPath);
    ModEntry(id, meta.name.GetOr(id), meta.version, Some(zipPath), files)
  }

  /**
   * `install_mod_from_zip_path`: the plugins directory is made first; an
   * archive that cannot be read, an unreadable entry or a manifest that is
   * not UTF-8 ends the install, and so does an archive that installs
   * nothing. Otherwise the new record replaces any with its id and the
   * manifest is saved.
   */
  function InstallMod(fs: Fs, mods: seq<ModEntry>, zipPath: string, zip: Archive,
                      read: string -> Option<Manifest>): (Fs, seq<ModEntry>, Outcome)
  {
    var fs0 := WithDirAll(fs, BepInEx.PluginsDir);
    match zip
    case NotAZip(reason) => (fs0, mods, Err(reason))
    case Archive(es) =>
      match MetaFrom(NoMeta, es, read)
      case Failure(msg) => (fs0, mods, Err(msg))
      case Success(meta) =>
        MetaFromSucceeds(NoMeta, es, read);
        var (fs1, files) := Deploy(fs0, es);
        if files == [] then (fs1, mods, Err(NothingInstallable))
        else
          var mods1 := ReplaceById(mods, NewEntry(zipPath, meta, files));
          (BepInEx.SaveIndex(fs1, ModIndex(mods1)), mods1, Ok)
  }

  /**
   * The install succeeds exactly when the archive is readable, no entry
   * stops the metadata pass, and some entry is placed by the path rules or
   * is a library; every failure leaves the list of mods as it was.
   */
  lemma InstallOutcome(fs: Fs, mods: seq<ModEntry>, zipPath: string, zip: Archive,
                       read: string -> Option<Manifest>)
    ensures var r := InstallMod(fs, mods, zipPath, zip, read);
            && (r.2 == Ok <==>
                  && zip.Archive?
                  && (forall i :: 0 <= i < |zip.entries| ==> !StopsMeta(zip.entries[i]))
                  && exists i :: 0 <= i < |zip.entries| && (IsMappedFile(zip.entries[i]) || IsLooseDll(zip.entries[i])))
            && (r.2.Err? ==> r.1 == mods)
  {
    if zip.Archive? {
      var es := zip.entries;
      MetaFromSucceeds(NoMeta, es, read);
      if MetaFrom(NoMeta, es, read).Success? {
        DeployEmpty(WithDirAll(fs, BepInEx.PluginsDir), es);
      }
    }
  }

  /**
   * After a successful install the new record is the only one with the
   * archive's id and is last, the other records are kept in order, ids
   * that were unique stay unique, and every path the record lists is a
   * file.
   */
  lemma InstallReplaces(fs: Fs, mods: seq<ModEntry>, zipPath: string, zip: Archive,
                        read: string -> Option<Manifest>)
    requires InstallMod(fs, mods, zipPath, zip, read).2 == Ok
    ensures var r := InstallMod(fs, mods, zipPath, zip, read);
            var id := ModId(zipPath);
            && |r.1| > 0
            && r.1[|r.1| - 1].id == id
            && r.1[|r.1| - 1].sourceZip == Some(zipPath)
            && r.1[|r.1| - 1].installedFiles != []
            && (forall i :: 0 <= i < |r.1| && r.1[i].id == id ==> i == |r.1| - 1)
            && WithoutId(r.1, id) == WithoutId(mods, id)
            && (UniqueIds(mods) ==> UniqueIds(r.1))
            && (forall p :: p in r.1[|r.1| - 1].installedFiles ==> p in r.0.files)
  {
    var es := zip.entries;
    var meta := MetaFrom(NoMeta, es, read).value;
    MetaFromSucceeds(NoMeta, es, read);
    var fs0 := WithDirAll(fs, BepInEx.PluginsDir);
    var files := Deploy(fs0, es).1;
    ReplaceByIdSpec(mods, NewEntry(zipPath, meta, files));
    forall p | p in files ensures p in InstallMod(fs, mods, zipPath, zip, read).0.files {
      DeployRecordsFiles(fs0, es, p);
    }
  }

  /** Without a manifest that names the mod, the record is named by its id. */
  lemma InstallNameFallback(fs: Fs, mods: seq<ModEntry>, zipPath: string, zip: Archive,
                            read: string -> Option<Manifest>)
    requires InstallMod(fs, mods, zipPath, zip, read).2 == Ok
    requires forall i :: 0 <= i < |zip.entries| ==> !NamesMod(zip.entries[i], read)
    ensures var r := InstallMod(fs, mods, zipPath, zip, read);
            |r.1| > 0 && r.1[|r.1| - 1].name == ModId(zipPath)
  {
    MetaFromName(NoMeta, zip.entries, read);
    InstallReplaces(fs, mods, zipPath, zip, read);
  }

  // ------------------------------------------------------------- dropped libraries

  /** The path's extension is `ext` (given in lower case), ignoring ASCII case. */
  predicate HasExtension(path: string, ext: string) {
    Paths.Extension(path).Some? && Text.EqIgnoreAsciiCase(Paths.Extension(path).value, ext)
  }

  /** The record of a library dropped from `path`. */
  function DllEntry(path: string): ModEntry
    requires Paths.FileName(path).Some?
  {
    ModEntry(Paths.FileStem(path).GetOr(DefaultId), Paths.FileName(path).GetOr(DefaultId),
             None, Some(path), [FlatRecord(path)])
  }

  /**
   * Dropping a library as the code is written: the plugins directory is
   * made and the file copied into it (`copied` is what the copy reads, none
   * when it fails); on success a record is pushed without looking for one
   * with the same id, and the manifest is saved.
   */
  function DropDllAsWritten(fs: Fs, mods: seq<ModEntry>, path: string, copied: Option<Bytes>): (Fs, seq<ModEntry>)
    requires Paths.FileName(path).Some?
  {
    var fs0 := WithDirAll(fs, Paths.Parent(FlatTarget(path)));
    match copied
    case None => (fs0, mods)
    case Some(data) =>
      var mods1 := mods + [DllEntry(path)];
      (BepInEx.SaveIndex(WithFile(fs0, FlatTarget(path), data), ModIndex(mods1)), mods1)
  }

  /** Dropping the same library twice leaves two records with one id. */
  lemma AsWrittenDropDuplicates(fs: Fs, mods: seq<ModEntry>, path: string, data: Bytes)
    requires Paths.FileName(path).Some?
    ensures var (fs1, mods1) := DropDllAsWritten(fs, mods, path, Some(data));
            !UniqueIds(DropDllAsWritten(fs1, mods1, path, Some(data)).1)
  {
    var (fs1, mods1) := DropDllAsWritten(fs, mods, path, Some(data));
    var mods2 := DropDllAsWritten(fs1, mods1, path, Some(data)).1;
    assert mods2[|mods2| - 2].id == mods2[|mods2| - 1].id;
  }

  /** The drop with the record replaced by id, as the archive installer does. */
  function DropDll(fs: Fs, mods: seq<ModEntry>, path: string, copied: Option<Bytes>): (Fs, seq<ModEntry>)
    requires Paths.FileName(path).Some?
  {
    var fs0 := WithDirAll(fs, Paths.Parent(FlatTarget(path)));
    match copied
    case None => (fs0, mods)
    case Some(data) =>
      var mods1 := ReplaceById(mods, DllEntry(path));
      (BepInEx.SaveIndex(WithFile(fs0, FlatTarget(path), data), ModIndex(mods1)), mods1)
  }

  /**
   * A failed copy leaves the records as they were; a successful one writes
   * the library to `BepInEx/plugins/<file name>`, which is the one path the
   * new record lists, and the record is the only one with its id.
   */
  lemma DropDllSpec(fs: Fs, mods: seq<ModEntry>, path: string, copied: Option<Bytes>)
    requires Paths.FileName(path).Some?
    ensures var r := DropDll(fs, mods, path, copied);
            && (copied.None? ==> r.1 == mods)
            && (copied.Some? ==>
                  var dest := "BepInEx/plugins/" + Paths.FileName(path).value;
                  && dest in r.0.files && r.0.files[dest] == copied.value
                  && |r.1| > 0 && r.1[|r.1| - 1].installedFiles == [dest]
                  && (forall i :: 0 <= i < |r.1| && r.1[i].id == r.1[|r.1| - 1].id ==> i == |r.1| - 1)
                  && WithoutId(r.1, r.1[|r.1| - 1].id) == WithoutId(mods, r.1[|r.1| - 1].id))
    ensures UniqueIds(mods) ==> UniqueIds(DropDll(fs, mods, path, copied).1)
  {
    FlatTargetName(path);
    var entry := DllEntry(path);
    ReplaceByIdSpec(mods, entry);
    if copied.Some? {
      DropDllWrites(fs, mods, path, copied.value);
    }
  }

  /** A copied library lands at its flattened path, which the manifest file is not. */
  lemma DropDllWrites(fs: Fs, mods: seq<ModEntry>, path: string, data: Bytes)
    requires Paths.FileName(path).Some?
    ensures var dest := "BepInEx/plugins/" + Paths.FileName(path).value;
            var r := DropDll(fs, mods, path, Some(data)).0;
            dest in r.files && r.files[dest] == data
  {
    FlatTargetName(path);
    var t := FlatTarget(path);
    PluginsPathNotIndex(Paths.FileName(path).value);
    var fs1 := WithFile(WithDirAll(fs, Paths.Parent(t)), t, data);
    var mods1 := ReplaceById(mods, DllEntry(path));
    assert DropDll(fs, mods, path, Some(data)).0 == BepInEx.SaveIndex(fs1, ModIndex(mods1));
    BepInEx.SaveIndexFrame(fs1, ModIndex(mods1), t);
  }

  /** No file of the plugins directory is the manifest file. */
  lemma PluginsPathNotIndex(n: string)
    ensures "BepInEx/plugins/" + n != BepInEx.IndexPath
  {
    assert ("BepInEx/plugins/" + n)[8] == 'p' && BepInEx.IndexPath[8] == 'm';
  }

  // ------------------------------------------------------------- dropped files

  /**
   * A file dropped on the window: its path when it has one, what the zip
   * reader makes of it, and what copying it reads (none when the copy fails).
   */
  datatype DroppedFile = DroppedFile(path: Option<string>, archive: Archive, copied: Option<Bytes>)

  /** One dropped file: an archive is installed, a library copied, anything else ignored. */
  function DropOne(fs: Fs, mods: seq<ModEntry>, f: DroppedFile, read: string -> Option<Manifest>): (Fs, seq<ModEntry>) {
    match f.path
    case None => (fs, mods)
    case Some(path) =>
      if HasExtension(path, "zip") then
        var r := InstallMod(fs, mods, path, f.archive, read);
        (r.0, r.1)
      else if HasExtension(path, "dll") then DropDll(fs, mods, path, f.copied)
      else (fs, mods)
  }

  /** The dropped files handled one after the other. */
  function DropAll(fs: Fs, mods: seq<ModEntry>, files: seq<DroppedFile>, read: string -> Option<Manifest>): (Fs, seq<ModEntry>)
    decreases |files|
  {
    if files == [] then (fs, mods)
    else
      var r := DropAll(fs, mods, files[..|files| - 1], read);
      DropOne(r.0, r.1, files[|files| - 1], read)
  }

  /** However many archives and libraries are dropped, no two records come to share an id. */
  lemma {:induction false} DropAllUnique(fs: Fs, mods: seq<ModEntry>, files: seq<DroppedFile>,
                                         read: string -> Option<Manifest>)
    requires UniqueIds(mods)
    ensures UniqueIds(DropAll(fs, mods, files, read).1)
    decreases |files|
  {
    if files != [] {
      DropAllUnique(fs, mods, files[..|files| - 1], read);
      var r := DropAll(fs, mods, files[..|files| - 1], read);
      var f := files[|files| - 1];
      if f.path.Some? {
        var path := f.path.value;
        if HasExtension(path, "zip") {
          InstallOutcome(r.0, r.1, path, f.archive, read);
          if InstallMod(r.0, r.1, path, f.archive, read).2 == Ok {
            InstallReplaces(r.0, r.1, path, f.archive, read);
          }
        } else if HasExtension(path, "dll") {
          DropDllSpec(r.0, r.1, path, f.copied);
        }
      }
    }
  }
}
