/**
 * The persisted form of the manifest: a JSON document
 * `{"mods":[{"id":…,"name":…,"version":…,"source_zip":…,"installed_files":[…]}]}`
 * with the field names the source serialises, and a reader for documents of
 * exactly that shape. Strings escape '"' and '\' with a backslash.
 */
module IndexCodec {
  import opened Common
  import opened Types

  // ---------------------------------------------------------------- writing

  function Escape(s: string): string {
    if s == [] then ""
    else (if s[0] == '"' || s[0] == '\\' then ['\\', s[0]] else [s[0]]) + Escape(s[1..])
  }

  function Str(s: string): string {
    "\"" + Escape(s) + "\""
  }

  function OptStr(o: Option<string>): string {
    match o
    case None => "null"
    case Some(s) => Str(s)
  }

  /** The items of a non-empty list of strings, comma-separated. */
  function StrItems(ss: seq<string>): string
    requires ss != []
  {
    if |ss| == 1 then Str(ss[0]) else Str(ss[0]) + "," + StrItems(ss[1..])
  }

  function StrList(ss: seq<string>): string {
    if ss == [] then "[]" else "[" + StrItems(ss) + "]"
  }

  function EntryJson(e: ModEntry): string {
    "{\"id\":" + Str(e.id) + ",\"name\":" + Str(e.name)
    + ",\"version\":" + OptStr(e.version) + ",\"source_zip\":" + OptStr(e.sourceZip)
    + ",\"installed_files\":" + StrList(e.installedFiles) + "}"
  }

  function EntryItems(es: seq<ModEntry>): string
    requires es != []
  {
    if |es| == 1 then EntryJson(es[0]) else EntryJson(es[0]) + "," + EntryItems(es[1..])
  }

  function EntryList(es: seq<ModEntry>): string {
    if es == [] then "[]" else "[" + EntryItems(es) + "]"
  }

  /**
   * The manifest's text form: a compact JSON document with the fields of
   * `ModIndex`. It stands in for the pretty-printed JSON that `save_index`
   * writes; the layout differs, the fields do not.
   */
  function Serialize(idx: ModIndex): string {
    "{\"mods\":" + EntryList(idx.mods) + "}"
  }

  // ---------------------------------------------------------------- reading

  /** What follows `lit` at the front of `s`. */
  function Lit(lit: string, s: string): (r: Option<string>)
    ensures r.Some? ==> s == lit + r.value
  {
    if |lit| <= |s| && s[..|lit|] == lit then Some(s[|lit|..]) else None
  }

  /** The rest of a string literal whose opening quote has been read. */
  function StrBody(s: string): (r: Option<(string, string)>)
    ensures r.Some? ==> |r.value.1| < |s|
    decreases |s|
  {
    if s == [] then None
    else if s[0] == '"' then Some(("", s[1..]))
    else if s[0] == '\\' then
      if |s| >= 2 && (s[1] == '"' || s[1] == '\\') then
        match StrBody(s[2..])
        case None => None
        case Some((v, rest)) => Some(([s[1]] + v, rest))
      else None
    else
      match StrBody(s[1..])
      case None => None
      case Some((v, rest)) => Some(([s[0]] + v, rest))
  }

  function ParseStr(s: string): (r: Option<(string, string)>)
    ensures r.Some? ==> |r.value.1| < |s|
  {
    if s != [] && s[0] == '"' then StrBody(s[1..]) else None
  }

  function ParseOptStr(s: string): (r: Option<(Option<string>, string)>)
    ensures r.Some? ==> |r.value.1| < |s|
  {
    match Lit("null", s)
    case Some(rest) => Some((None, rest))
    case None =>
      match ParseStr(s)
      case None => None
      case Some((v, rest)) => Some((Some(v), rest))
  }

  /** Comma-separated strings up to and including the closing ']'. */
  function ParseStrItems(s: string): (r: Option<(seq<string>, string)>)
    ensures r.Some? ==> |r.value.1| < |s|
    decreases |s|
  {
    match ParseStr(s)
    case None => None
    case Some((v, rest)) =>
      match Lit("]", rest)
      case Some(after) => Some(([v], after))
      case None =>
        match Lit(",", rest)
        case None => None
        case Some(more) =>
          match ParseStrItems(more)
          case None => None
          case Some((vs, after)) => Some(([v] + vs, after))
  }

  function ParseStrList(s: string): (r: Option<(seq<string>, string)>)
    ensures r.Some? ==> |r.value.1| < |s|
  {
    match Lit("[]", s)
    case Some(rest) => Some(([], rest))
    case None =>
      match Lit("[", s)
      case None => None
      case Some(rest) => ParseStrItems(rest)
  }

  /** `key` followed by a string. */
  function StrField(key: string, s: string): (r: Option<(string, string)>)
    ensures r.Some? ==> |r.value.1| < |s|
  {
    match Lit(key, s)
    case None => None
    case Some(rest) => ParseStr(rest)
  }

  /** `key` followed by a string or `null`. */
  function OptField(key: string, s: string): (r: Option<(Option<string>, string)>)
    ensures r.Some? ==> |r.value.1| < |s|
  {
    match Lit(key, s)
    case None => None
    case Some(rest) => ParseOptStr(rest)
  }

  /** `key` followed by a list of strings. */
  function ListField(key: string, s: string): (r: Option<(seq<string>, string)>)
    ensures r.Some? ==> |r.value.1| < |s|
  {
    match Lit(key, s)
    case None => None
    case Some(rest) => ParseStrList(rest)
  }

  function ParseEntry(s: string): (r: Option<(ModEntry, string)>)
    ensures r.Some? ==> |r.value.1| < |s|
  {
    match StrField("{\"id\":", s)
    case None => None
    case Some((id, s1)) =>
      match StrField(",\"name\":", s1)
      case None => None
      case Some((name, s2)) =>
        match OptField(",\"version\":", s2)
        case None => None
        case Some((version, s3)) =>
          match OptField(",\"source_zip\":", s3)
          case None => None
          case Some((source, s4)) =>
            match ListField(",\"installed_files\":", s4)
            case None => None
            case Some((files, s5)) =>
              match Lit("}", s5)
              case None => None
              case Some(s6) => Some((ModEntry(id, name, version, source, files), s6))
  }

  function ParseEntryItems(s: string): (r: Option<(seq<ModEntry>, string)>)
    ensures r.Some? ==> |r.value.1| < |s|
    decreases |s|
  {
    match ParseEntry(s)
    case None => None
    case Some((e, rest)) =>
      match Lit("]", rest)
      case Some(after) => Some(([e], after))
      case None =>
        match Lit(",", rest)
        case None => None
        case Some(more) =>
          match ParseEntryItems(more)
          case None => None
          case Some((es, after)) => Some(([e] + es, after))
  }

  function ParseEntryList(s: string): (r: Option<(seq<ModEntry>, string)>)
    ensures r.Some? ==> |r.value.1| < |s|
  {
    match Lit("[]", s)
    case Some(rest) => Some(([], rest))
    case None =>
      match Lit("[", s)
      case None => None
      case Some(rest) => ParseEntryItems(rest)
  }

  /**
   * Reading the manifest back: the `ModIndex` written by `Serialize`, or None
   * for any other text. It stands in for serde's JSON reader, which also
   * accepts other layouts, other field orders and missing optional fields;
   * this reader accepts only what `Serialize` writes.
   */
  function Parse(s: string): Option<ModIndex> {
    match Lit("{\"mods\":", s)
    case None => None
    case Some(s1) =>
      match ParseEntryList(s1)
      case None => None
      case Some((mods, s2)) => if s2 == "}" then Some(ModIndex(mods)) else None
  }

  // ---------------------------------------------------------------- round trip

  lemma LitAppend(lit: string, rest: string)
    ensures Lit(lit, lit + rest) == Some(rest)
  {
    assert (lit + rest)[..|lit|] == lit;
    assert (lit + rest)[|lit|..] == rest;
  }

  lemma {:induction false} StrBodyEscape(s: string, rest: string)
    ensures StrBody(Escape(s) + "\"" + rest) == Some((s, rest))
  {
    var t := Escape(s) + "\"" + rest;
    if s == [] {
      assert t == "\"" + rest;
      assert t[1..] == rest;
    } else {
      StrBodyEscape(s[1..], rest);
      var tail := Escape(s[1..]) + "\"" + rest;
      if s[0] == '"' || s[0] == '\\' {
        assert t == ['\\', s[0]] + tail;
        assert t[2..] == tail;
      } else {
        assert t == [s[0]] + tail;
        assert t[1..] == tail;
      }
      assert [s[0]] + s[1..] == s;
    }
  }

  lemma StrRoundTrip(s: string, rest: string)
    ensures ParseStr(Str(s) + rest) == Some((s, rest))
  {
    var t := Str(s) + rest;
    assert t == "\"" + (Escape(s) + "\"" + rest);
    assert t[1..] == Escape(s) + "\"" + rest;
    StrBodyEscape(s, rest);
  }

  lemma OptStrRoundTrip(o: Option<string>, rest: string)
    ensures ParseOptStr(OptStr(o) + rest) == Some((o, rest))
  {
    match o
    case None => LitAppend("null", rest);
    case Some(s) =>
      StrRoundTrip(s, rest);
      assert (Str(s) + rest)[0] == '"';
  }

  lemma {:induction false} StrItemsRoundTrip(ss: seq<string>, rest: string)
    requires ss != []
    ensures ParseStrItems(StrItems(ss) + "]" + rest) == Some((ss, rest))
  {
    if |ss| == 1 {
      assert StrItems(ss) + "]" + rest == Str(ss[0]) + ("]" + rest);
      StrRoundTrip(ss[0], "]" + rest);
      LitAppend("]", rest);
      assert ss == [ss[0]];
    } else {
      var more := StrItems(ss[1..]) + "]" + rest;
      assert StrItems(ss) == Str(ss[0]) + "," + StrItems(ss[1..]);
      Regroup(Str(ss[0]), ",", StrItems(ss[1..]), "]", rest);
      StrRoundTrip(ss[0], "," + more);
      LitMismatch("]", "," + more, 0);
      LitAppend(",", more);
      StrItemsRoundTrip(ss[1..], rest);
      HeadTail(ss);
    }
  }

  lemma StrListRoundTrip(ss: seq<string>, rest: string)
    ensures ParseStrList(StrList(ss) + rest) == Some((ss, rest))
  {
    if ss == [] {
      LitAppend("[]", rest);
    } else {
      var t := StrList(ss) + rest;
      Regroup3("[", StrItems(ss), "]", rest);
      StrItemsStart(ss);
      LitMismatch("[]", t, 1);
      LitAppend("[", StrItems(ss) + "]" + rest);
      StrItemsRoundTrip(ss, rest);
    }
  }

  lemma StrItemsStart(ss: seq<string>)
    requires ss != []
    ensures |StrItems(ss)| > 0 && StrItems(ss)[0] == '"'
  {
    if |ss| > 1 {
      assert StrItems(ss) == Str(ss[0]) + ("," + StrItems(ss[1..]));
    }
  }

  lemma StrFieldRoundTrip(key: string, v: string, rest: string)
    ensures StrField(key, key + Str(v) + rest) == Some((v, rest))
  {
    assert key + Str(v) + rest == key + (Str(v) + rest);
    LitAppend(key, Str(v) + rest);
    StrRoundTrip(v, rest);
  }

  lemma OptFieldRoundTrip(key: string, v: Option<string>, rest: string)
    ensures OptField(key, key + OptStr(v) + rest) == Some((v, rest))
  {
    assert key + OptStr(v) + rest == key + (OptStr(v) + rest);
    LitAppend(key, OptStr(v) + rest);
    OptStrRoundTrip(v, rest);
  }

  lemma ListFieldRoundTrip(key: string, v: seq<string>, rest: string)
    ensures ListField(key, key + StrList(v) + rest) == Some((v, rest))
  {
    assert key + StrList(v) + rest == key + (StrList(v) + rest);
    LitAppend(key, StrList(v) + rest);
    StrListRoundTrip(v, rest);
  }

  lemma Reassociate(a: string, b: string, c: string, d: string, e: string, f: string,
                    g: string, h: string, i: string, j: string, k: string, rest: string)
    ensures a + b + c + d + e + f + g + h + i + j + k + rest
         == a + b + (c + d + (e + f + (g + h + (i + j + (k + rest)))))
  {
  }

  /** A literal does not match where a character of it differs. */
  lemma LitMismatch(lit: string, s: string, k: nat)
    requires k < |lit| && k < |s| && s[k] != lit[k]
    ensures Lit(lit, s).None?
  {
    if |lit| <= |s| {
      assert s[..|lit|][k] != lit[k];
    }
  }

  lemma Regroup3(a: string, b: string, c: string, rest: string)
    ensures a + b + c + rest == a + (b + c + rest)
  {
  }

  lemma Regroup(a: string, b: string, c: string, d: string, rest: string)
    ensures a + b + c + d + rest == a + (b + (c + d + rest))
  {
  }

  lemma HeadTail<T>(s: seq<T>)
    requires s != []
    ensures [s[0]] + s[1..] == s
  {
  }

  lemma EntryRoundTrip(e: ModEntry, rest: string)
    ensures ParseEntry(EntryJson(e) + rest) == Some((e, rest))
  {
    var s5 := "}" + rest;
    var s4 := ",\"installed_files\":" + StrList(e.installedFiles) + s5;
    var s3 := ",\"source_zip\":" + OptStr(e.sourceZip) + s4;
    var s2 := ",\"version\":" + OptStr(e.version) + s3;
    var s1 := ",\"name\":" + Str(e.name) + s2;
    Reassociate("{\"id\":", Str(e.id), ",\"name\":", Str(e.name), ",\"version\":", OptStr(e.version),
      ",\"source_zip\":", OptStr(e.sourceZip), ",\"installed_files\":", StrList(e.installedFiles), "}", rest);
    StrFieldRoundTrip("{\"id\":", e.id, s1);
    StrFieldRoundTrip(",\"name\":", e.name, s2);
    OptFieldRoundTrip(",\"version\":", e.version, s3);
    OptFieldRoundTrip(",\"source_zip\":", e.sourceZip, s4);
    ListFieldRoundTrip(",\"installed_files\":", e.installedFiles, s5);
    LitAppend("}", rest);
  }

  lemma EntryItemLast(e: ModEntry, rest: string)
    ensures ParseEntryItems(EntryItems([e]) + "]" + rest) == Some(([e], rest))
  {
    assert EntryItems([e]) + "]" + rest == EntryJson(e) + ("]" + rest);
    EntryRoundTrip(e, "]" + rest);
    LitAppend("]", rest);
  }

  lemma EntryItemNext(e: ModEntry, more: string)
    ensures ParseEntryItems(EntryJson(e) + ("," + more))
         == match ParseEntryItems(more)
            case None => None
            case Some((es, after)) => Some(([e] + es, after))
  {
    EntryRoundTrip(e, "," + more);
    LitMismatch("]", "," + more, 0);
    LitAppend(",", more);
  }

  lemma {:induction false} EntryItemsRoundTrip(es: seq<ModEntry>, rest: string)
    requires es != []
    ensures ParseEntryItems(EntryItems(es) + "]" + rest) == Some((es, rest))
  {
    if |es| == 1 {
      assert es == [es[0]];
      EntryItemLast(es[0], rest);
    } else {
      var more := EntryItems(es[1..]) + "]" + rest;
      assert EntryItems(es) == EntryJson(es[0]) + "," + EntryItems(es[1..]);
      Regroup(EntryJson(es[0]), ",", EntryItems(es[1..]), "]", rest);
      EntryItemNext(es[0], more);
      EntryItemsRoundTrip(es[1..], rest);
      HeadTail(es);
    }
  }

  lemma EntryJsonStart(e: ModEntry)
    ensures |EntryJson(e)| > 0 && EntryJson(e)[0] == '{'
  {
  }

  lemma EntryItemsStart(es: seq<ModEntry>)
    requires es != []
    ensures |EntryItems(es)| > 0 && EntryItems(es)[0] == '{'
  {
    EntryJsonStart(es[0]);
    if |es| > 1 {
      ConcatHead(EntryJson(es[0]), ",", EntryItems(es[1..]));
    }
  }

  lemma ConcatHead(a: string, b: string, c: string)
    requires |a| > 0
    ensures |a + b + c| > 0 && (a + b + c)[0] == a[0]
  {
  }

  lemma EntryListRoundTrip(es: seq<ModEntry>, rest: string)
    ensures ParseEntryList(EntryList(es) + rest) == Some((es, rest))
  {
    if es == [] {
      LitAppend("[]", rest);
    } else {
      var t := EntryList(es) + rest;
      Regroup3("[", EntryItems(es), "]", rest);
      EntryItemsStart(es);
      LitMismatch("[]", t, 1);
      LitAppend("[", EntryItems(es) + "]" + rest);
      EntryItemsRoundTrip(es, rest);
    }
  }

  /** Reading back a written manifest gives the same manifest. */
  lemma ParseSerialize(idx: ModIndex)
    ensures Parse(Serialize(idx)) == Some(idx)
  {
    var s1 := EntryList(idx.mods) + "}";
    assert Serialize(idx) == "{\"mods\":" + s1;
    LitAppend("{\"mods\":", s1);
    EntryListRoundTrip(idx.mods, "}");
  }
}
