/**
 * Where an entry of a mod archive lands in the game directory. The rules
 * are tried in order on the lower-cased entry name; the result keeps the
 * entry's own letter case.
 */
module PathMapper {
  import opened Common
  import opened Text

  /** The text of `entry` before its first ':' or '*', as `splitn(2, ..).next()` gives it. */
  function BeforeSeparator(entry: string): (r: string)
    ensures |r| <= |entry| && r == entry[..|r|]
    ensures forall i :: 0 <= i < |r| ==> entry[i] != ':' && entry[i] != '*'
    ensures |r| < |entry| ==> entry[|r|] == ':' || entry[|r|] == '*'
  {
    if entry == [] then []
    else if entry[0] == ':' || entry[0] == '*' then []
    else [entry[0]] + BeforeSeparator(entry[1..])
  }

  /** `PathBuf::join`: an absolute `rel` replaces `base`, otherwise a '/' joins them. */
  function JoinPath(base: Path, rel: string): Path {
    if rel != [] && rel[0] == '/' then rel else base + "/" + rel
  }

  predicate EndsWithSlash(s: string) {
    s != [] && s[|s| - 1] == '/'
  }

  /** `map_mod_zip_entry_to_game_rel`. */
  function MapEntry(entry: string): Option<Path> {
    var lower := Lower(entry);
    if EndsWithSlash(lower) then Some(entry)
    else if Contains(lower, "bepinex/plugins/") then Some(BeforeSeparator(entry))
    else if StartsWith(lower, "plugins/") then Some(JoinPath("BepInEx/plugins", entry[8..]))
    else if StartsWith(lower, "bepinex/") then Some(entry)
    else None
  }

  /** Lower-casing keeps a trailing '/' and creates none. */
  lemma LowerEndsWithSlash(s: string)
    ensures EndsWithSlash(Lower(s)) <==> EndsWithSlash(s)
  {
  }

  /** A directory entry maps to exactly its own name. */
  lemma MapDirectory(entry: string)
    requires EndsWithSlash(entry)
    ensures MapEntry(entry) == Some(entry)
  {
    LowerEndsWithSlash(entry);
  }

  /**
   * A file entry whose name contains `bepinex/plugins/` in any letter case
   * maps to the longest prefix of its name free of ':' and '*': the whole
   * name when neither occurs.
   */
  lemma MapNestedPlugins(entry: string)
    requires !EndsWithSlash(entry) && Contains(Lower(entry), "bepinex/plugins/")
    ensures MapEntry(entry).Some?
    ensures var r := MapEntry(entry).value;
            && r == entry[..|r|]
            && (forall i :: 0 <= i < |r| ==> r[i] != ':' && r[i] != '*')
            && (|r| < |entry| ==> entry[|r|] == ':' || entry[|r|] == '*')
    ensures (forall i :: 0 <= i < |entry| ==> entry[i] != ':' && entry[i] != '*') ==>
              MapEntry(entry) == Some(entry)
  {
    LowerEndsWithSlash(entry);
    var r := BeforeSeparator(entry);
    forall i | 0 <= i < |r| ensures r[i] != ':' && r[i] != '*' {
      assert r[i] == entry[i];
    }
    if forall i :: 0 <= i < |entry| ==> entry[i] != ':' && entry[i] != '*' {
      assert |r| == |entry|;
      assert r == entry;
    }
  }

  /**
   * Otherwise a name starting with `plugins/` in any letter case moves into
   * `BepInEx/plugins`, keeping the rest of the name.
   */
  lemma MapPluginsPrefix(entry: string)
    requires !EndsWithSlash(entry) && !Contains(Lower(entry), "bepinex/plugins/")
    requires StartsWith(Lower(entry), "plugins/")
    ensures |entry| > 8
    ensures entry[8] != '/' ==> MapEntry(entry) == Some("BepInEx/plugins/" + entry[8..])
    ensures entry[8] == '/' ==> MapEntry(entry) == Some(entry[8..])
  {
    LowerEndsWithSlash(entry);
    assert "BepInEx/plugins" + "/" == "BepInEx/plugins/";
  }

  /** Otherwise a name starting with `bepinex/` in any letter case is kept as it is. */
  lemma MapBepInExPrefix(entry: string)
    requires !EndsWithSlash(entry) && !Contains(Lower(entry), "bepinex/plugins/")
    requires !StartsWith(Lower(entry), "plugins/") && StartsWith(Lower(entry), "bepinex/")
    ensures MapEntry(entry) == Some(entry)
  {
    LowerEndsWithSlash(entry);
  }

  /** Exactly the names that no rule accepts are dropped. */
  lemma MapNone(entry: string)
    ensures MapEntry(entry).None? <==>
      && !EndsWithSlash(entry)
      && !Contains(Lower(entry), "bepinex/plugins/")
      && !StartsWith(Lower(entry), "plugins/")
      && !StartsWith(Lower(entry), "bepinex/")
  {
    LowerEndsWithSlash(entry);
  }

  /** Which rule applies depends only on the lower-cased name. */
  lemma MapCaseInsensitive(a: string, b: string)
    requires Lower(a) == Lower(b)
    ensures MapEntry(a).Some? <==> MapEntry(b).Some?
  {
  }

  /** The rules are tried in order: a `plugins/` directory entry stays a directory entry. */
  lemma MapRuleOrder()
    ensures MapEntry("plugins/sub/") == Some("plugins/sub/")
  {
    MapDirectory("plugins/sub/");
  }
}
