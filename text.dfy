/** The string operations of Rust's standard library that the core uses, on `seq<char>`. */
module Text {

  /** ASCII lower-casing of one character; every other character is unchanged. */
  function LowerChar(c: char): (r: char)
    ensures 'A' <= c <= 'Z' ==> r as int == c as int + 32
    ensures !('A' <= c <= 'Z') ==> r == c
  {
    if 'A' <= c <= 'Z' then (c as int + 32) as char else c
  }

  /**
   * Lower-casing of a whole string. The source calls Unicode `to_lowercase`;
   * every needle it then searches for is ASCII, and no non-ASCII character
   * lower-cases into a match of those needles, so ASCII lower-casing decides
   * the same tests.
   */
  function Lower(s: string): (r: string)
    ensures |r| == |s|
    ensures forall i :: 0 <= i < |s| ==> r[i] == LowerChar(s[i])
  {
    seq(|s|, i requires 0 <= i < |s| => LowerChar(s[i]))
  }

  predicate StartsWith(s: string, prefix: string) {
    |prefix| <= |s| && s[..|prefix|] == prefix
  }

  predicate EndsWith(s: string, suffix: string) {
    |suffix| <= |s| && s[|s| - |suffix|..] == suffix
  }

  /** `needle` occurs in `s` from index `i` on. */
  predicate OccursAt(s: string, needle: string, i: int) {
    0 <= i <= |s| - |needle| && s[i..i + |needle|] == needle
  }

  predicate Contains(s: string, needle: string) {
    exists i | 0 <= i <= |s| :: OccursAt(s, needle, i)
  }

  /** Rust's `eq_ignore_ascii_case`. */
  predicate EqIgnoreAsciiCase(a: string, b: string) {
    Lower(a) == Lower(b)
  }

  /** Rust's `char::is_whitespace`: the Unicode White_Space property. */
  predicate IsWhitespace(c: char) {
    || '\t' <= c <= '\r'
    || c == ' '
    || c == '\U{85}'
    || c == '\U{A0}'
    || c == '\U{1680}'
    || '\U{2000}' <= c <= '\U{200A}'
    || c == '\U{2028}'
    || c == '\U{2029}'
    || c == '\U{202F}'
    || c == '\U{205F}'
    || c == '\U{3000}'
  }

  /** Rust's `str::trim_start`. */
  function TrimStart(s: string): (r: string)
    ensures |r| <= |s|
  {
    if s != [] && IsWhitespace(s[0]) then TrimStart(s[1..]) else s
  }

  /** Rust's `str::trim_end`. */
  function TrimEnd(s: string): (r: string)
    ensures |r| <= |s|
  {
    if s != [] && IsWhitespace(s[|s| - 1]) then TrimEnd(s[..|s| - 1]) else s
  }

  /** `TrimStart` removes the longest all-whitespace prefix and nothing else. */
  lemma {:induction false} TrimStartSpec(s: string)
    ensures var r := TrimStart(s);
            && r == s[|s| - |r|..]
            && (r != [] ==> !IsWhitespace(r[0]))
            && (forall i :: 0 <= i < |s| - |r| ==> IsWhitespace(s[i]))
    decreases |s|
  {
    if s != [] && IsWhitespace(s[0]) {
      TrimStartSpec(s[1..]);
      var r := TrimStart(s);
      forall i | 0 <= i < |s| - |r| ensures IsWhitespace(s[i]) {
        if i > 0 { assert s[i] == s[1..][i - 1]; }
      }
    }
  }

  /** `TrimEnd` removes the longest all-whitespace suffix and nothing else. */
  lemma {:induction false} TrimEndSpec(s: string)
    ensures var r := TrimEnd(s);
            && r == s[..|r|]
            && (r != [] ==> !IsWhitespace(r[|r| - 1]))
            && (forall i :: |r| <= i < |s| ==> IsWhitespace(s[i]))
    decreases |s|
  {
    if s != [] && IsWhitespace(s[|s| - 1]) {
      TrimEndSpec(s[..|s| - 1]);
      var r := TrimEnd(s);
      forall i | |r| <= i < |s| ensures IsWhitespace(s[i]) {
        if i < |s| - 1 { assert s[i] == s[..|s| - 1][i]; }
      }
    }
  }

  /** Rust's `str::trim`. */
  function Trim(s: string): string {
    TrimStart(TrimEnd(s))
  }

  /** Text with no whitespace at either end is its own trim. */
  lemma TrimUnchanged(s: string)
    requires s != [] && !IsWhitespace(s[0]) && !IsWhitespace(s[|s| - 1])
    ensures Trim(s) == s
  {
    assert TrimEnd(s) == s;
  }

  /** The index of the first '\n' at or after `i`, or `|s|` when there is none. */
  function LineEnd(s: string, i: nat): (r: nat)
    requires i <= |s|
    ensures i <= r <= |s|
    ensures r < |s| ==> s[r] == '\n'
    ensures forall j :: i <= j < r ==> s[j] != '\n'
    decreases |s| - i
  {
    if i == |s| || s[i] == '\n' then i else LineEnd(s, i + 1)
  }

  /** A line ended by "\r\n" loses its '\r' too. */
  function StripCR(line: string): string {
    if line != [] && line[|line| - 1] == '\r' then line[..|line| - 1] else line
  }

  /**
   * Rust's `str::lines`: split after every '\n'; a terminated line loses its
   * "\n" or "\r\n"; a last line without '\n' is kept as it is; a final '\n'
   * does not start an empty last line.
   */
  function Lines(s: string): (r: seq<string>)
    ensures |r| <= |s|
    ensures s != [] ==> r != []
    decreases |s|
  {
    if s == [] then []
    else
      var i := LineEnd(s, 0);
      if i == |s| then [s] else [StripCR(s[..i])] + Lines(s[i + 1..])
  }

  /** A line ended by '\n' is split off first. */
  lemma LinesCons(a: string, rest: string)
    requires '\n' !in a
    ensures Lines(a + "\n" + rest) == [StripCR(a)] + Lines(rest)
  {
    var s := a + "\n" + rest;
    assert s[|a|] == '\n';
    forall j | 0 <= j < |a| ensures s[j] != '\n' {
      assert s[j] == a[j];
    }
    assert LineEnd(s, 0) == |a|;
    assert s[..|a|] == a;
    assert s[|a| + 1..] == rest;
  }

  /** Text without '\n' is one line, kept as it is. */
  lemma LinesLast(a: string)
    requires a != [] && '\n' !in a
    ensures Lines(a) == [a]
  {
    assert LineEnd(a, 0) == |a|;
  }

  /** Rust's `[String]::join(sep)`. */
  function Join(lines: seq<string>, sep: string): string
    decreases |lines|
  {
    if |lines| == 0 then ""
    else if |lines| == 1 then lines[0]
    else lines[0] + sep + Join(lines[1..], sep)
  }

  // ------------------------------------------------------------- containment

  /** Containment is transitive. */
  lemma ContainsTrans(s: string, t: string, u: string)
    requires Contains(s, t) && Contains(t, u)
    ensures Contains(s, u)
  {
    var i :| 0 <= i <= |s| && OccursAt(s, t, i);
    var j :| 0 <= j <= |t| && OccursAt(t, u, j);
    assert t == s[i..i + |t|];
    forall k | 0 <= k < |u| ensures s[i + j + k] == u[k] {
      assert u[k] == t[j + k] == s[i + j + k];
    }
    assert s[i + j..i + j + |u|] == u;
    assert OccursAt(s, u, i + j);
  }

  /** Lower-casing keeps containment. */
  lemma ContainsLower(s: string, t: string)
    requires Contains(s, t)
    ensures Contains(Lower(s), Lower(t))
  {
    var i :| 0 <= i <= |s| && OccursAt(s, t, i);
    assert Lower(s)[i..i + |t|] == Lower(t);
    assert OccursAt(Lower(s), Lower(t), i);
  }

  /** A slice of a string is contained in it. */
  lemma ContainsSlice(s: string, a: nat, b: nat)
    requires a <= b <= |s|
    ensures Contains(s, s[a..b])
  {
    assert OccursAt(s, s[a..b], a);
  }

  /** A trimmed string is contained in the string. */
  lemma ContainsTrim(s: string)
    ensures Contains(s, Trim(s))
  {
    TrimEndSpec(s);
    var e := TrimEnd(s);
    TrimStartSpec(e);
    ContainsSlice(s, 0, |e|);
    assert s[0..|e|] == e;
    ContainsSlice(e, |e| - |Trim(s)|, |e|);
    assert e[|e| - |Trim(s)|..|e|] == Trim(s);
    ContainsTrans(s, e, Trim(s));
  }

  /** Every line `Lines` gives is contained in the text. */
  lemma {:induction false} ContainsLine(s: string, k: nat)
    requires k < |Lines(s)|
    ensures Contains(s, Lines(s)[k])
    decreases |s|
  {
    var i := LineEnd(s, 0);
    if i == |s| {
      ContainsSlice(s, 0, |s|);
      assert s[0..|s|] == s;
    } else {
      var line := s[..i];
      ContainsSlice(s, 0, i);
      assert s[0..i] == line;
      if k == 0 {
        ContainsSlice(line, 0, |StripCR(line)|);
        assert line[0..|StripCR(line)|] == StripCR(line);
        ContainsTrans(s, line, StripCR(line));
      } else {
        var rest := s[i + 1..];
        ContainsLine(rest, k - 1);
        ContainsSlice(s, i + 1, |s|);
        assert s[i + 1..|s|] == rest;
        ContainsTrans(s, rest, Lines(rest)[k - 1]);
      }
    }
  }
}
