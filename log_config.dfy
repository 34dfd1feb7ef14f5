/**
 * Turning off BepInEx's Unity log listener: the `UnityLogListening` key of
 * the `[Logging]` section of `BepInEx/config/BepInEx.cfg` is set to `false`,
 * creating the file or the key when they are missing.
 *
 * The file is handled as Rust's `str::lines` splits it. A line is a section
 * header when, trimmed, it starts with '[' and ends with ']'; a line belongs
 * to the section of the last header above it.
 */
module LogConfig {
  import opened Common
  import opened Text
  import opened FileSystem
  import Paths
  import Utf8
  import BepInEx

  const KeyLine := "UnityLogListening = false"
  /** The whole file written when there is none. */
  const FreshConfig := "[Logging]" + "\n" + (KeyLine + "\n")

  const IsDirectoryMsg := "Is a directory"

  /** `l.starts_with('[') && l.ends_with(']')`. */
  predicate IsHeader(l: string) {
    |l| > 0 && l[0] == '[' && l[|l| - 1] == ']'
  }

  /** `l.eq_ignore_ascii_case("[logging]")`; the needle is already lower-case. */
  predicate NamesLogging(l: string) {
    Lower(l) == "[logging]"
  }

  /** The last section header strictly above line `i`. */
  function HeaderAbove(lines: seq<string>, i: nat): (r: Option<nat>)
    requires i <= |lines|
    ensures r.Some? ==> r.value < i && IsHeader(Trim(lines[r.value]))
    ensures r.Some? ==> forall j :: r.value < j < i ==> !IsHeader(Trim(lines[j]))
    ensures r.None? ==> forall j :: 0 <= j < i ==> !IsHeader(Trim(lines[j]))
  {
    if i == 0 then None
    else if IsHeader(Trim(lines[i - 1])) then Some(i - 1)
    else HeaderAbove(lines, i - 1)
  }

  /** Line `i` lies in a section whose header is `[Logging]`, in any letter case. */
  predicate InLogging(lines: seq<string>, i: nat)
    requires i <= |lines|
  {
    match HeaderAbove(lines, i)
    case None => false
    case Some(h) => NamesLogging(Trim(lines[h]))
  }

  /** Line `i` sets `UnityLogListening` (in any letter case) inside `[Logging]`. */
  predicate IsKeyLine(lines: seq<string>, i: nat)
    requires i < |lines|
  {
    var l := Trim(lines[i]);
    !IsHeader(l) && InLogging(lines, i) && StartsWith(Lower(l), "unityloglistening")
  }

  /** The first key line at or below line `i`. */
  function FirstKeyLineFrom(lines: seq<string>, i: nat): (r: Option<nat>)
    requires i <= |lines|
    ensures r.Some? ==> i <= r.value < |lines| && IsKeyLine(lines, r.value)
    ensures r.Some? ==> forall j :: i <= j < r.value ==> !IsKeyLine(lines, j)
    ensures r.None? ==> forall j :: i <= j < |lines| ==> !IsKeyLine(lines, j)
    decreases |lines| - i
  {
    if i == |lines| then None
    else if IsKeyLine(lines, i) then Some(i)
    else FirstKeyLineFrom(lines, i + 1)
  }

  function FirstKeyLine(lines: seq<string>): Option<nat> {
    FirstKeyLineFrom(lines, 0)
  }

  /** A header line naming `[Logging]`. */
  predicate IsLoggingHeader(lines: seq<string>, i: nat)
    requires i < |lines|
  {
    IsHeader(Trim(lines[i])) && NamesLogging(Trim(lines[i]))
  }

  function FirstLoggingHeaderFrom(lines: seq<string>, i: nat): (r: Option<nat>)
    requires i <= |lines|
    ensures r.Some? ==> i <= r.value < |lines| && IsLoggingHeader(lines, r.value)
    ensures r.None? ==> forall j :: i <= j < |lines| ==> !IsLoggingHeader(lines, j)
    decreases |lines| - i
  {
    if i == |lines| then None
    else if IsLoggingHeader(lines, i) then Some(i)
    else FirstLoggingHeaderFrom(lines, i + 1)
  }

  /**
   * The scan of `set_unity_log_listening_false`: walking the lines while
   * tracking whether the current section is `[Logging]`, it replaces the
   * first key line by `KeyLine` and stops.
   */
  method ScanForKey(lines: seq<string>) returns (out: seq<string>, updated: bool)
    ensures updated <==> FirstKeyLine(lines).Some?
    ensures updated ==> out == lines[FirstKeyLine(lines).value := KeyLine]
    ensures !updated ==> out == lines
  {
    out := lines;
    updated := false;
    var inLogging := false;
    var i := 0;
    while i < |out|
      invariant 0 <= i <= |lines| && out == lines
      invariant inLogging == InLogging(lines, i)
      invariant FirstKeyLine(lines) == FirstKeyLineFrom(lines, i)
    {
      var l := Trim(out[i]);
      ScanStep(lines, i);
      if |l| > 0 && l[0] == '[' && l[|l| - 1] == ']' {
        inLogging := NamesLogging(l);
      } else if inLogging && StartsWith(Lower(l), "unityloglistening") {
        out := out[i := KeyLine];
        updated := true;
        return;
      }
      i := i + 1;
    }
  }

  /**
   * One step of the scan: a header line opens a section and is no key
   * line; any other line stays in the current section and is a key line
   * exactly when that section is `[Logging]` and the line starts with the key.
   */
  lemma ScanStep(lines: seq<string>, i: nat)
    requires i < |lines|
    ensures var l := Trim(lines[i]);
            IsHeader(l) ==> InLogging(lines, i + 1) == NamesLogging(l) && !IsKeyLine(lines, i)
    ensures var l := Trim(lines[i]);
            !IsHeader(l) ==> InLogging(lines, i + 1) == InLogging(lines, i)
                             && (IsKeyLine(lines, i) <==> InLogging(lines, i) && StartsWith(Lower(l), "unityloglistening"))
    ensures IsKeyLine(lines, i) ==> FirstKeyLineFrom(lines, i) == Some(i)
    ensures !IsKeyLine(lines, i) ==> FirstKeyLineFrom(lines, i) == FirstKeyLineFrom(lines, i + 1)
  {
    if IsHeader(Trim(lines[i])) {
      assert HeaderAbove(lines, i + 1) == Some(i);
    } else {
      assert HeaderAbove(lines, i + 1) == HeaderAbove(lines, i);
    }
  }

  // ------------------------------------------------------------- appending the key

  /**
   * The key is missing, as written: `KeyLine` goes at the very end of the
   * file, preceded by a blank line and a `[Logging]` header only when the
   * text `[logging]` appears nowhere in the file, in any letter case.
   */
  function AppendKeyAsWritten(lines: seq<string>, content: string): seq<string> {
    if Contains(Lower(content), "[logging]") then lines + [KeyLine]
    else lines + ["", "[Logging]", KeyLine]
  }

  /**
   * The key is missing, as intended: `KeyLine` goes right below the first
   * `[Logging]` header; when no line is such a header, a blank line, the
   * header and the key are appended.
   */
  function AppendKey(lines: seq<string>): seq<string> {
    match FirstLoggingHeaderFrom(lines, 0)
    case Some(h) => lines[..h + 1] + [KeyLine] + lines[h + 1..]
    case None => lines + ["", "[Logging]", KeyLine]
  }

  function PatchLinesAsWritten(lines: seq<string>, content: string): seq<string> {
    match FirstKeyLine(lines)
    case Some(k) => lines[k := KeyLine]
    case None => AppendKeyAsWritten(lines, content)
  }

  function PatchLines(lines: seq<string>): seq<string> {
    match FirstKeyLine(lines)
    case Some(k) => lines[k := KeyLine]
    case None => AppendKey(lines)
  }

  // ------------------------------------------------------------- the file

  /**
   * `set_unity_log_listening_false` on the filesystem: a missing file is
   * created holding `FreshConfig`; a directory in its place and a file that
   * is not UTF-8 text fail without change; otherwise the patched lines are
   * written back joined by "\n".
   */
  function PatchConfig(fs: Fs): (Fs, Outcome) {
    if !Exists(fs, BepInEx.ConfigPath) then
      (WithFile(WithDirAll(fs, Paths.Parent(BepInEx.ConfigPath)), BepInEx.ConfigPath, Utf8.Encode(FreshConfig)), Ok)
    else if BepInEx.ConfigPath !in fs.files then (fs, Err(IsDirectoryMsg))
    else match Utf8.Decode(fs.files[BepInEx.ConfigPath])
      case None => (fs, Err(Utf8.NotUtf8Msg))
      case Some(content) =>
        (WithFile(fs, BepInEx.ConfigPath, Utf8.Encode(Join(PatchLines(Lines(content)), "\n"))), Ok)
  }

  method SetUnityLogListeningFalse(disk: Disk) returns (r: Outcome)
    modifies disk
    ensures (disk.State(), r) == PatchConfig(old(disk.State()))
  {
    if !Exists(disk.State(), BepInEx.ConfigPath) {
      disk.CreateDirAll(Paths.Parent(BepInEx.ConfigPath));
      disk.WriteFile(BepInEx.ConfigPath, Utf8.Encode(FreshConfig));
      return Ok;
    }
    if BepInEx.ConfigPath !in disk.files {
      return Err(IsDirectoryMsg);
    }
    var content := Utf8.Decode(disk.files[BepInEx.ConfigPath]);
    if content.None? {
      return Err(Utf8.NotUtf8Msg);
    }
    var out, updated := ScanForKey(Lines(content.value));
    if !updated {
      out := AppendKey(out);
    }
    disk.WriteFile(BepInEx.ConfigPath, Utf8.Encode(Join(out, "\n")));
    r := Ok;
  }

  // ------------------------------------------------------------- properties

  /** Whether a line above `i` is a header depends only on the lines above `i`. */
  lemma {:induction false} HeaderAbovePrefix(a: seq<string>, b: seq<string>, i: nat)
    requires i <= |a| && i <= |b| && a[..i] == b[..i]
    ensures HeaderAbove(a, i) == HeaderAbove(b, i)
    decreases i
  {
    if i > 0 {
      assert a[i - 1] == a[..i][i - 1] == b[..i][i - 1] == b[i - 1];
      assert a[..i - 1] == a[..i][..i - 1];
      assert b[..i - 1] == b[..i][..i - 1];
      HeaderAbovePrefix(a, b, i - 1);
    }
  }

  /** Being a key line depends only on that line and the lines above it. */
  lemma KeyLinePrefix(a: seq<string>, b: seq<string>, j: nat)
    requires j < |a| && j < |b| && a[..j + 1] == b[..j + 1]
    ensures IsKeyLine(a, j) == IsKeyLine(b, j)
  {
    assert a[j] == a[..j + 1][j] == b[..j + 1][j] == b[j];
    assert a[..j] == a[..j + 1][..j] && b[..j] == b[..j + 1][..j];
    HeaderAbovePrefix(a, b, j);
    var h := HeaderAbove(a, j);
    if h.Some? {
      assert a[h.value] == a[..j + 1][h.value] == b[..j + 1][h.value] == b[h.value];
    }
  }

  lemma TrimmedKeyLine()
    ensures Trim(KeyLine) == KeyLine
    ensures !IsHeader(KeyLine)
    ensures StartsWith(Lower(KeyLine), "unityloglistening")
  {
    TrimUnchanged(KeyLine);
    assert Lower(KeyLine)[..17] == "unityloglistening";
  }

  lemma LoggingHeaderLine()
    ensures Trim("[Logging]") == "[Logging]"
    ensures IsHeader("[Logging]")
    ensures NamesLogging("[Logging]")
  {
    TrimUnchanged("[Logging]");
    assert Lower("[Logging]") == "[logging]";
  }

  /**
   * Whatever the file held, after patching its first key line inside
   * `[Logging]` is exactly `KeyLine`.
   */
  lemma PatchLinesDisablesListening(lines: seq<string>)
    ensures var out := PatchLines(lines);
            FirstKeyLine(out).Some? && out[FirstKeyLine(out).value] == KeyLine
  {
    match FirstKeyLine(lines)
    case Some(k) => KeyReplacedStaysFirst(lines, k);
    case None =>
      match FirstLoggingHeaderFrom(lines, 0)
      case Some(h) => KeyBelowHeaderFirst(lines, h);
      case None => KeyAppendedFirst(lines);
  }

  /** The first key line, once replaced by `KeyLine`, is still the first key line. */
  lemma KeyReplacedStaysFirst(lines: seq<string>, k: nat)
    requires FirstKeyLine(lines) == Some(k)
    ensures FirstKeyLine(lines[k := KeyLine]) == Some(k)
  {
    var out := lines[k := KeyLine];
    assert out[..k] == lines[..k];
    HeaderAbovePrefix(lines, out, k);
    var h := HeaderAbove(lines, k).value;
    assert out[h] == lines[h];
    TrimmedKeyLine();
    KeyFreePrefix(lines, out, k);
    ScanStep(out, k);
  }

  /** With no key line, the key inserted below the first `[Logging]` header is the first key line. */
  lemma KeyBelowHeaderFirst(lines: seq<string>, h: nat)
    requires FirstKeyLine(lines).None? && FirstLoggingHeaderFrom(lines, 0) == Some(h)
    ensures FirstKeyLine(AppendKey(lines)) == Some(h + 1)
  {
    var out := lines[..h + 1] + [KeyLine] + lines[h + 1..];
    assert AppendKey(lines) == out;
    assert out[..h + 1] == lines[..h + 1];
    assert out[h] == lines[h] && out[h + 1] == KeyLine;
    assert HeaderAbove(out, h + 1) == Some(h);
    TrimmedKeyLine();
    KeyFreePrefix(lines, out, h + 1);
    ScanStep(out, h + 1);
  }

  /** With no key line and no `[Logging]` header, the appended key is the first key line. */
  lemma KeyAppendedFirst(lines: seq<string>)
    requires FirstKeyLine(lines).None? && FirstLoggingHeaderFrom(lines, 0).None?
    ensures FirstKeyLine(AppendKey(lines)) == Some(|lines| + 2)
  {
    var n := |lines|;
    var out := AppendKey(lines);
    AppendedTail(lines);
    KeyFreePrefix(lines, out, n);
    assert Trim("") == "";
    ScanStep(out, n);
    LoggingHeaderLine();
    ScanStep(out, n + 1);
    TrimmedKeyLine();
    ScanStep(out, n + 2);
  }

  /** The lines appended when there is no `[Logging]` header, one by one. */
  lemma AppendedTail(lines: seq<string>)
    requires FirstLoggingHeaderFrom(lines, 0).None?
    ensures var out := AppendKey(lines);
            var n := |lines|;
            && |out| == n + 3 && out[..n] == lines[..n]
            && out[n] == "" && out[n + 1] == "[Logging]" && out[n + 2] == KeyLine
  {
    var n := |lines|;
    var tail := ["", "[Logging]", KeyLine];
    assert AppendKey(lines) == lines + tail;
    assert (lines + tail)[n + 2] == tail[2];
  }

  /**
   * `out` agrees with `lines`, which has no key line, on its first `m`
   * lines. Then the first key line of `out` is the first one from line `m` on.
   */
  lemma KeyFreePrefix(lines: seq<string>, out: seq<string>, m: nat)
    requires m <= |out| && m <= |lines| && out[..m] == lines[..m]
    requires forall j :: 0 <= j < m ==> !IsKeyLine(lines, j)
    ensures FirstKeyLine(out) == FirstKeyLineFrom(out, m)
  {
    forall j | 0 <= j < m ensures !IsKeyLine(out, j) {
      assert out[..j + 1] == out[..m][..j + 1] == lines[..m][..j + 1] == lines[..j + 1];
      KeyLinePrefix(out, lines, j);
    }
    SkipKeyFree(out, m);
  }

  /** With no key line above line `m`, the search for one may start at `m`. */
  lemma {:induction false} SkipKeyFree(lines: seq<string>, m: nat)
    requires m <= |lines|
    requires forall j :: 0 <= j < m ==> !IsKeyLine(lines, j)
    ensures FirstKeyLineFrom(lines, 0) == FirstKeyLineFrom(lines, m)
    decreases m
  {
    if m > 0 {
      SkipKeyFree(lines, m - 1);
    }
  }

  /**
   * When the file has a key line inside `[Logging]`, only the first one
   * changes: every other line, key lines in other sections included, is
   * kept as it was.
   */
  lemma PatchLinesOnlyKeyChanges(lines: seq<string>)
    requires FirstKeyLine(lines).Some?
    ensures var out := PatchLines(lines);
            var k := FirstKeyLine(lines).value;
            && |out| == |lines| && out[k] == KeyLine
            && (forall j :: 0 <= j < |lines| && j != k ==> out[j] == lines[j])
  {
  }

  /**
   * When it has none, every line is kept in order and the key goes right
   * below the first `[Logging]` header, or at the end under a new header.
   */
  lemma PatchLinesInsertsKey(lines: seq<string>)
    requires FirstKeyLine(lines).None?
    ensures var out := PatchLines(lines);
            match FirstLoggingHeaderFrom(lines, 0)
            case Some(h) =>
              |out| == |lines| + 1 && out[..h + 1] == lines[..h + 1] && out[h + 1] == KeyLine && out[h + 2..] == lines[h + 1..]
            case None =>
              out[..|lines|] == lines && out[|lines|..] == ["", "[Logging]", KeyLine]
  {
    var out := PatchLines(lines);
    match FirstLoggingHeaderFrom(lines, 0)
    case Some(h) =>
      assert out[h + 2..] == lines[h + 1..];
    case None =>
  }

  /** Patching a patched file changes nothing more. */
  lemma PatchLinesIdempotent(lines: seq<string>)
    ensures PatchLines(PatchLines(lines)) == PatchLines(lines)
  {
    var out := PatchLines(lines);
    PatchLinesDisablesListening(lines);
    var k := FirstKeyLine(out).value;
    assert out[k := KeyLine] == out;
  }

  /** The lines of `FreshConfig` are the header and the key, and the key is a key line. */
  lemma FreshConfigLines()
    ensures Lines(FreshConfig) == ["[Logging]", KeyLine]
    ensures FirstKeyLine(Lines(FreshConfig)) == Some(1)
  {
    KeyLineOneLine();
    LinesCons("[Logging]", KeyLine + "\n");
    LinesCons(KeyLine, "");
    assert KeyLine + "\n" + "" == KeyLine + "\n";
    assert StripCR("[Logging]") == "[Logging]";
    KeyBelowLogging();
  }

  /** The key line holds no line break. */
  lemma KeyLineOneLine()
    ensures '\n' !in KeyLine && StripCR(KeyLine) == KeyLine
  {
    forall i | 0 <= i < |KeyLine| ensures KeyLine[i] != '\n' {
    }
  }

  /** In a `[Logging]` header followed by the key, the key is the first key line. */
  lemma KeyBelowLogging()
    ensures FirstKeyLine(["[Logging]", KeyLine]) == Some(1)
  {
    var ls := ["[Logging]", KeyLine];
    TrimmedKeyLine();
    LoggingHeaderLine();
    ScanStep(ls, 0);
    ScanStep(ls, 1);
  }

  /** A config created from scratch holds the key inside `[Logging]`. */
  lemma MissingConfigCreated(fs: Fs)
    requires !Exists(fs, BepInEx.ConfigPath)
    ensures PatchConfig(fs).1 == Ok
    ensures BepInEx.ConfigPath in PatchConfig(fs).0.files
    ensures Utf8.Decode(PatchConfig(fs).0.files[BepInEx.ConfigPath]) == Some(FreshConfig)
    ensures FirstKeyLine(Lines(FreshConfig)) == Some(1)
  {
    Utf8.DecodeEncode(FreshConfig);
    FreshConfigLines();
  }

  /**
   * As written, a `[Logging]` section that is not the last one loses the
   * key: it is appended under the last section instead.
   */
  lemma AsWrittenKeyOutsideLogging()
    ensures var content := "[Logging]" + "\n" + "[Other]";
            var out := PatchLinesAsWritten(Lines(content), content);
            out == ["[Logging]", "[Other]", KeyLine] && FirstKeyLine(out).None?
  {
    var content := "[Logging]" + "\n" + "[Other]";
    var ls := ["[Logging]", "[Other]"];
    TwoSectionLines();
    LoggingHeaderLine();
    OtherHeaderLine();
    ScanStep(ls, 0);
    ScanStep(ls, 1);
    MentionsLogging();
    var out := ls + [KeyLine];
    assert out[0] == ls[0] && out[1] == ls[1] && out[2] == KeyLine;
    ScanStep(out, 0);
    ScanStep(out, 1);
    assert HeaderAbove(out, 2) == Some(1);
    TrimmedKeyLine();
    ScanStep(out, 2);
  }

  /** The two lines of the `[Logging]`-then-`[Other]` file. */
  lemma TwoSectionLines()
    ensures Lines("[Logging]" + "\n" + "[Other]") == ["[Logging]", "[Other]"]
  {
    LinesCons("[Logging]", "[Other]");
    LinesLast("[Other]");
    assert StripCR("[Logging]") == "[Logging]";
  }

  /** `[Other]` is a section header, and not `[Logging]`'s. */
  lemma OtherHeaderLine()
    ensures Trim("[Other]") == "[Other]" && IsHeader("[Other]") && !NamesLogging("[Other]")
  {
    TrimUnchanged("[Other]");
    assert Lower("[Other]")[1] == 'o';
  }

  /** The text `[logging]` occurs, lower-cased, at the start of that file. */
  lemma MentionsLogging()
    ensures Contains(Lower("[Logging]" + "\n" + "[Other]"), "[logging]")
  {
    var content := "[Logging]" + "\n" + "[Other]";
    assert Lower(content)[..9] == "[logging]";
    assert OccursAt(Lower(content), "[logging]", 0);
  }

  /**
   * As written, a missing key goes at the very end of the file: alone when
   * the text mentions `[logging]` in any letter case, after a blank line
   * and a new `[Logging]` header otherwise. Every earlier line is kept.
   */
  lemma AsWrittenAppendsAtEnd(content: string)
    requires FirstKeyLine(Lines(content)).None?
    ensures var lines := Lines(content);
            var out := PatchLinesAsWritten(lines, content);
            && out[..|lines|] == lines
            && (Contains(Lower(content), "[logging]") ==> out[|lines|..] == [KeyLine])
            && (!Contains(Lower(content), "[logging]") ==> out[|lines|..] == ["", "[Logging]", KeyLine])
  {
  }

  /** A `[Logging]` header line puts the text `[logging]` into the lower-cased file. */
  lemma LoggingHeaderMentioned(content: string, i: nat)
    requires i < |Lines(content)| && IsLoggingHeader(Lines(content), i)
    ensures Contains(Lower(content), "[logging]")
  {
    var line := Lines(content)[i];
    ContainsLine(content, i);
    ContainsTrim(line);
    ContainsTrans(content, line, Trim(line));
    ContainsLower(content, Trim(line));
  }

  /**
   * The as-written patch and the corrected one differ only when the file
   * has no key line inside `[Logging]` yet mentions `[logging]`: when a key
   * line exists, or the text never mentions `[logging]`, they agree.
   */
  lemma AsWrittenAgrees(content: string)
    requires FirstKeyLine(Lines(content)).Some? || !Contains(Lower(content), "[logging]")
    ensures PatchLinesAsWritten(Lines(content), content) == PatchLines(Lines(content))
  {
    var lines := Lines(content);
    if FirstKeyLine(lines).None? {
      match FirstLoggingHeaderFrom(lines, 0)
      case Some(h) =>
        LoggingHeaderMentioned(content, h);
        assert false;
      case None =>
    }
  }

  /**
   * As written, patching is not idempotent: the key the first run put under
   * `[Other]` is not found by the second run, which appends another one.
   */
  lemma AsWrittenNotIdempotent()
    ensures var content := "[Logging]" + "\n" + "[Other]";
            var once := PatchLinesAsWritten(Lines(content), content);
            var written := Join(once, "\n");
            var twice := PatchLinesAsWritten(Lines(written), written);
            once == ["[Logging]", "[Other]", KeyLine] && twice == once + [KeyLine]
  {
    AsWrittenKeyOutsideLogging();
    var once := ["[Logging]", "[Other]", KeyLine];
    PatchedTwoSectionLines();
    PatchedTwoSectionMentions();
  }

  /** Written back, the three patched lines read as the same three lines. */
  lemma PatchedTwoSectionLines()
    ensures var once := ["[Logging]", "[Other]", KeyLine];
            Lines(Join(once, "\n")) == once
  {
    JoinThree("[Logging]", "[Other]", KeyLine);
    OtherThenKeyLines();
    LinesCons("[Logging]", "[Other]" + "\n" + KeyLine);
    assert StripCR("[Logging]") == "[Logging]";
  }

  /** The text `[Other]`, a line break and the key reads as those two lines. */
  lemma OtherThenKeyLines()
    ensures Lines("[Other]" + "\n" + KeyLine) == ["[Other]", KeyLine]
  {
    KeyLineOneLine();
    LinesCons("[Other]", KeyLine);
    LinesLast(KeyLine);
    assert StripCR("[Other]") == "[Other]";
  }

  /** The written-back text still mentions `[logging]`. */
  lemma PatchedTwoSectionMentions()
    ensures Contains(Lower(Join(["[Logging]", "[Other]", KeyLine], "\n")), "[logging]")
  {
    var written := Join(["[Logging]", "[Other]", KeyLine], "\n");
    JoinThree("[Logging]", "[Other]", KeyLine);
    assert Lower(written)[..9] == "[logging]";
    assert OccursAt(Lower(written), "[logging]", 0);
  }

  /** Three lines joined by "\n". */
  lemma JoinThree(a: string, b: string, c: string)
    ensures Join([a, b, c], "\n") == a + "\n" + (b + "\n" + c)
  {
    assert [a, b, c][1..] == [b, c];
    assert [b, c][1..] == [c];
    assert Join([c], "\n") == c;
    assert Join([b, c], "\n") == b + "\n" + c;
  }
}
